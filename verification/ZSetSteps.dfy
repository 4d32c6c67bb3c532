/**
 What each sorted-set operation of PikaCache makes of a cached window, and exactly when the window is
 still one of what the same command leaves in the database.
 */
module ZSetSteps {
  import opened ZSet
  import opened ZSetWindow
  import opened Wrappers

  /** What the cache engine makes of an empty score bound: an error, or some number. */
  datatype EmptyBound = Rejected | ReadAs(v: real)

  /** Which end of the order is cached, how many members per key, and how an empty bound reads. */
  datatype Config = Config(dir: Direction, num: nat, emptyBound: EmptyBound)

  // double's epsilon, 2^-52
  const EPSILON: real := 1.0 / 4503599627370496.0

  /** Score a lies strictly nearer than b to the cached end. */
  predicate Nearer(dir: Direction, a: real, b: real) {
    if dir == FromBegin then a < b else a > b
  }

  /** The score at the far edge of a window: the greatest from the begin, the least from the end. */
  ghost predicate IsEdge(dir: Direction, z: ZSet, e: real) {
    && (exists m | m in z :: z[m] == e)
    && (forall m | m in z :: !Nearer(dir, e, z[m]))
  }

  ghost function Edge(dir: Direction, z: ZSet): (e: real)
    requires z != map[]
    ensures IsEdge(dir, z, e)
  {
    var i: nat := if dir == FromBegin then |z| - 1 else 0;
    EdgeInOrder(dir, z, i);
    Order(z)[i].score
  }

  lemma {:induction false} EdgeInOrder(dir: Direction, z: ZSet, i: nat)
    requires z != map[] && i == if dir == FromBegin then |z| - 1 else 0
    ensures IsEdge(dir, z, Order(z)[i].score)
  {
    OrderRank(z, i);
    var x := Order(z)[i];
    assert z[x.member] == x.score;
    forall m | m in z
      ensures !Nearer(dir, x.score, z[m])
    {
      RankBelowSize(z, m);
      RankInjective(z, x.member, m);
      RankInjective(z, m, x.member);
    }
  }

  lemma {:induction false} EdgeUnique(dir: Direction, z: ZSet, a: real, b: real)
    requires IsEdge(dir, z, a) && IsEdge(dir, z, b)
    ensures a == b
  {
  }

  // zadd

  /** The scores that a list of members and scores assigns; a later one wins. */
  function Assigned(sms: seq<Elem>): map<string, real> {
    if sms == [] then map[]
    else Assigned(sms[..|sms| - 1])[sms[|sms| - 1].member := sms[|sms| - 1].score]
  }

  /** The removal of everything beyond the edge e; with an item on the edge the bound is empty. */
  function CutBeyond(cfg: Config, z: ZSet, onEdge: bool, e: real): ZSet {
    if onEdge && cfg.emptyBound.Rejected? then z
    else
      var b := if onEdge then Incl(cfg.emptyBound.v) else Excl(e);
      RemScore(z, if cfg.dir == FromBegin then ScoreRange(b, Infinite) else ScoreRange(Infinite, b))
  }

  function WithinEdge(dir: Direction, u: map<string, real>, e: real): map<string, real> {
    map m | m in u && !Nearer(dir, e, u[m]) :: u[m]
  }

  function BeyondEdge(dir: Direction, u: map<string, real>, e: real): set<string> {
    set m | m in u && Nearer(dir, e, u[m])
  }

  predicate OnEdge(u: map<string, real>, e: real) {
    exists m | m in u :: u[m] == e
  }

  /** The window with the new scores near its edge e taken in and those beyond it taken out. */
  function TakeIn(cfg: Config, cache: ZSet, u: map<string, real>, e: real): ZSet {
    if forall m | m in u :: Nearer(cfg.dir, u[m], e) then cache + u
    else
      var can := WithinEdge(cfg.dir, u, e);
      (if can == map[] then cache else CutBeyond(cfg, cache + can, OnEdge(u, e), e)) - BeyondEdge(cfg.dir, u, e)
  }

  ghost function ZAddStep(cfg: Config, cache: ZSet, u: map<string, real>): ZSet {
    if cache == map[] then cache
    else Trim(cfg.dir, TakeIn(cfg, cache, u, Edge(cfg.dir, cache)), cfg.num)
  }

  /** No new score is on the edge, or an empty bound reads as a score not beyond it. */
  ghost predicate EdgeIsClear(cfg: Config, cache: ZSet, u: map<string, real>) {
    cache != map[] ==>
      var e := Edge(cfg.dir, cache);
      || (forall m | m in u :: u[m] != e)
      || (cfg.emptyBound.ReadAs? && !Nearer(cfg.dir, e, cfg.emptyBound.v))
  }

  /** A member of the set ahead of the edge score is cached. */
  lemma {:induction false} NearerIsCached(dir: Direction, db: ZSet, cache: ZSet, e: real, k: string)
    requires Window(dir, db, cache) && IsEdge(dir, cache, e) && k in db && Nearer(dir, db[k], e)
    ensures k in cache
  {
    var m :| m in cache && cache[m] == e;
    assert Ahead(dir, At(db, k), At(db, m));
  }

  /** A member neither cached nor given a new score is ahead of a new member on the edge. */
  ghost predicate Overtakes(dir: Direction, db: ZSet, cache: ZSet, u: map<string, real>, e: real, k: string, m: string) {
    && m in u && u[m] == e
    && k in db && k !in cache && k !in u && Ahead(dir, At(db, k), Elem(e, m))
  }

  /** The members with their scores after the new ones beyond the edge are left out. */
  function Merged(dir: Direction, cache: ZSet, u: map<string, real>, e: real): ZSet {
    cache + WithinEdge(dir, u, e) - BeyondEdge(dir, u, e)
  }

  /** A new member on the edge is not cut off by the empty bound, nor by the size of the window. */
  ghost predicate Stays(cfg: Config, cache: ZSet, u: map<string, real>, e: real, m: string) {
    && (cfg.emptyBound.ReadAs? ==> Nearer(cfg.dir, e, cfg.emptyBound.v))
    && var z := Merged(cfg.dir, cache, u, e);
    && m in z
    && if cfg.dir == FromBegin then Rank(z, m) < cfg.num else |z| - cfg.num <= Rank(z, m)
  }

  lemma {:induction false} MergedIsTaken(cfg: Config, cache: ZSet, u: map<string, real>, e: real, m: string)
    requires m in u && u[m] == e && (forall x | x in cache :: !Nearer(cfg.dir, e, cache[x]))
    ensures m in Merged(cfg.dir, cache, u, e)
    ensures if cfg.emptyBound.ReadAs? && !Nearer(cfg.dir, e, cfg.emptyBound.v) then m !in TakeIn(cfg, cache, u, e)
            else TakeIn(cfg, cache, u, e) == Merged(cfg.dir, cache, u, e)
  {
    var can := WithinEdge(cfg.dir, u, e);
    assert m in can;
    forall x | x in cache + can
      ensures !Nearer(cfg.dir, e, (cache + can)[x])
    {
    }
  }

  lemma {:induction false} StaysIfCached(cfg: Config, cache: ZSet, u: map<string, real>, m: string)
    requires cache != map[] && m in u && u[m] == Edge(cfg.dir, cache)
    ensures m in ZAddStep(cfg, cache, u) <==> Stays(cfg, cache, u, Edge(cfg.dir, cache), m)
  {
    hide Merged, TakeIn, Edge, Rank;
    var e := Edge(cfg.dir, cache);
    MergedIsTaken(cfg, cache, u, e, m);
    if m in Merged(cfg.dir, cache, u, e) {
      RankBelowSize(Merged(cfg.dir, cache, u, e), m);
    }
  }

  ghost predicate Overtaken(dir: Direction, db: ZSet, cache: ZSet, u: map<string, real>, e: real, c: ZSet) {
    exists k, m :: m in c && Overtakes(dir, db, cache, u, e, k, m)
  }

  lemma {:induction false} OvertakenBreaks(cfg: Config, db: ZSet, cache: ZSet, u: map<string, real>, e: real, c: ZSet)
    requires Subset(c, db + u) && (forall m | m in c :: m in cache || m in u)
    requires Overtaken(cfg.dir, db, cache, u, e, c)
    ensures !Window(cfg.dir, db + u, c)
  {
    hide Before;
    var k, m :| m in c && Overtakes(cfg.dir, db, cache, u, e, k, m);
    assert k in db + u && k !in c && At(db + u, k) == At(db, k) && At(db + u, m) == Elem(e, m);
  }

  lemma {:induction false} NotOvertakenKeeps(cfg: Config, db: ZSet, cache: ZSet, u: map<string, real>, e: real, c: ZSet)
    requires Window(cfg.dir, db, cache) && IsEdge(cfg.dir, cache, e)
    requires Subset(TakeIn(cfg, cache, u, e), db + u) && Window(cfg.dir, TakeIn(cfg, cache, u, e), c)
    requires !Overtaken(cfg.dir, db, cache, u, e, c)
    ensures Window(cfg.dir, db + u, c)
  {
    hide Before, TakeIn, Nearer, IsEdge;
    var t := TakeIn(cfg, cache, u, e);
    forall m, k | m in c && m in db + u && k in db + u && Ahead(cfg.dir, At(db + u, k), At(db + u, m))
      ensures k in c
    {
      NotOvertaken(cfg, db, cache, u, e, k, m);
      assert k in t && At(t, k) == At(db + u, k) && At(t, m) == At(db + u, m);
    }
  }

  lemma {:induction false} ZAddBreaks(cfg: Config, db: ZSet, cache: ZSet, u: map<string, real>)
    requires Window(cfg.dir, db, cache) && cache != map[]
    ensures var c := ZAddStep(cfg, cache, u);
            Window(cfg.dir, db + u, c) <==> !Overtaken(cfg.dir, db, cache, u, Edge(cfg.dir, cache), c)
  {
    hide Closed, Trim, TakeIn, Overtaken, Order;
    var e := Edge(cfg.dir, cache);
    var t := TakeIn(cfg, cache, u, e);
    var c := ZAddStep(cfg, cache, u);
    TrimIsWindow(cfg.dir, t, cfg.num);
    TakeInSubset(cfg, db, cache, u, e);
    if Overtaken(cfg.dir, db, cache, u, e, c) {
      OvertakenBreaks(cfg, db, cache, u, e, c);
    } else {
      NotOvertakenKeeps(cfg, db, cache, u, e, c);
    }
  }

  /**
   When new scores may fall on the edge of the window, exactly one thing breaks it: a new member on the
   edge that is not cut off, and a member neither cached nor given a score that is ahead of it.
   */
  lemma {:induction false} ZAddExact(cfg: Config, db: ZSet, cache: ZSet, u: map<string, real>)
    requires Window(cfg.dir, db, cache) && cache != map[]
    ensures var e := Edge(cfg.dir, cache);
            Window(cfg.dir, db + u, ZAddStep(cfg, cache, u))
            <==> !exists k, m :: Overtakes(cfg.dir, db, cache, u, e, k, m) && Stays(cfg, cache, u, e, m)
  {
    hide Window, Edge, ZAddStep, Stays;
    var e := Edge(cfg.dir, cache);
    ZAddBreaks(cfg, db, cache, u);
    forall k, m | Overtakes(cfg.dir, db, cache, u, e, k, m)
      ensures m in ZAddStep(cfg, cache, u) <==> Stays(cfg, cache, u, e, m)
    {
      StaysIfCached(cfg, cache, u, m);
    }
  }

  lemma {:induction false} TakeInSubset(cfg: Config, db: ZSet, cache: ZSet, u: map<string, real>, e: real)
    requires Window(cfg.dir, db, cache)
    ensures Subset(TakeIn(cfg, cache, u, e), db + u)
    ensures forall m | m in TakeIn(cfg, cache, u, e) :: m in cache || m in u
  {
  }

  lemma {:induction false} NotOvertaken(cfg: Config, db: ZSet, cache: ZSet, u: map<string, real>, e: real, k: string, m: string)
    requires Window(cfg.dir, db, cache) && IsEdge(cfg.dir, cache, e)
    requires m in TakeIn(cfg, cache, u, e) && m in db + u && k in db + u
    requires Ahead(cfg.dir, At(db + u, k), At(db + u, m)) && !Overtakes(cfg.dir, db, cache, u, e, k, m)
    ensures k in TakeIn(cfg, cache, u, e)
  {
    if k !in u {
      assert At(db + u, k) == At(db, k);
      if m !in u {
        assert At(db + u, m) == At(db, m) && k in cache;
      } else if Nearer(cfg.dir, u[m], e) {
        NearerIsCached(cfg.dir, db, cache, e, k);
      } else {
        assert k in cache;
      }
    }
    StaysIn(cfg, db, cache, u, e, k, m);
  }

  /** What is taken in or cached, and not farther out than a member that stays, stays too. */
  lemma {:induction false} StaysIn(cfg: Config, db: ZSet, cache: ZSet, u: map<string, real>, e: real, k: string, m: string)
    requires Subset(cache, db) && m in TakeIn(cfg, cache, u, e) && m in db + u && k in db + u
    requires k in u || k in cache
    requires !Nearer(cfg.dir, (db + u)[m], (db + u)[k])
    requires forall x | x in cache :: !Nearer(cfg.dir, e, cache[x])
    ensures k in TakeIn(cfg, cache, u, e)
  {
    var can := WithinEdge(cfg.dir, u, e);
    if exists x | x in u :: !Nearer(cfg.dir, u[x], e) {
      assert k in u ==> !Nearer(cfg.dir, e, u[k]);
      assert k in cache + can || k in BeyondEdge(cfg.dir, u, e);
    }
  }

  /** Taking in new scores keeps the window if none is on the edge, or the empty bound cuts there. */
  lemma {:induction false} TakeInKeeps(cfg: Config, db: ZSet, cache: ZSet, u: map<string, real>, e: real)
    requires Window(cfg.dir, db, cache) && IsEdge(cfg.dir, cache, e)
    requires || (forall m | m in u :: u[m] != e)
             || (cfg.emptyBound.ReadAs? && !Nearer(cfg.dir, e, cfg.emptyBound.v))
    ensures Window(cfg.dir, db + u, TakeIn(cfg, cache, u, e))
  {
    hide TakeIn, Before, Nearer, Merged;
    var c := TakeIn(cfg, cache, u, e);
    TakeInSubset(cfg, db, cache, u, e);
    forall m, k | m in c && m in db + u && k in db + u && Ahead(cfg.dir, At(db + u, k), At(db + u, m))
      ensures k in c
    {
      assert !(m in u && u[m] == e) by {
        if m in u && u[m] == e {
          MergedIsTaken(cfg, cache, u, e, m);
        }
      }
      NotOvertaken(cfg, db, cache, u, e, k, m);
    }
  }

  /** Zadd keeps the window if the edge is clear. */
  lemma {:induction false} ZAddKeeps(cfg: Config, db: ZSet, cache: ZSet, u: map<string, real>)
    requires Window(cfg.dir, db, cache) && |cache| <= cfg.num && EdgeIsClear(cfg, cache, u)
    ensures Window(cfg.dir, db + u, ZAddStep(cfg, cache, u)) && |ZAddStep(cfg, cache, u)| <= cfg.num
  {
    hide Window, Trim, TakeIn;
    if cache == map[] {
      WholeIsWindow(cfg.dir, db + u);
    } else {
      var e := Edge(cfg.dir, cache);
      var c := TakeIn(cfg, cache, u, e);
      TakeInKeeps(cfg, db, cache, u, e);
      TrimIsWindow(cfg.dir, c, cfg.num);
      WindowTransitive(cfg.dir, db + u, c, Trim(cfg.dir, c, cfg.num));
    }
  }

  /** The score of a member once the new scores are given. */
  function ScoreAfter(cache: ZSet, u: map<string, real>, m: string): real
    requires m in u || m in cache
  {
    if m in u then u[m] else cache[m]
  }

  /** A member stays unless its new score is beyond the edge e, or a new score on the edge has a bound cut it off. */
  predicate StaysBy(cfg: Config, cache: ZSet, u: map<string, real>, e: real, m: string) {
    && (m in u || m in cache)
    && (m in u ==> !Nearer(cfg.dir, e, u[m]))
    && ((exists x | x in u :: u[x] == e) && cfg.emptyBound.ReadAs? ==>
          Nearer(cfg.dir, ScoreAfter(cache, u, m), cfg.emptyBound.v))
  }

  lemma {:induction false} TakeInExact(cfg: Config, cache: ZSet, u: map<string, real>, e: real, m: string)
    requires IsEdge(cfg.dir, cache, e)
    ensures m in TakeIn(cfg, cache, u, e) <==> StaysBy(cfg, cache, u, e, m)
    ensures m in TakeIn(cfg, cache, u, e) ==> TakeIn(cfg, cache, u, e)[m] == ScoreAfter(cache, u, m)
  {
    var can := WithinEdge(cfg.dir, u, e);
    forall x | x in cache + can
      ensures !Nearer(cfg.dir, e, (cache + can)[x])
    {
    }
    if m in u && u[m] == e { assert m in can; }
    if OnEdge(u, e) {
      var x :| x in u && u[x] == e;
      assert x in can;
    }
  }

  /**
   What zadd leaves in the cache: of the members that stay by their scores, as many as there may be, from the
   cached end.
   */
  lemma {:induction false} ZAddLeaves(cfg: Config, cache: ZSet, u: map<string, real>, e: real, z: ZSet)
    requires IsEdge(cfg.dir, cache, e)
    requires forall m :: m in z <==> StaysBy(cfg, cache, u, e, m)
    requires forall m | m in z :: StaysBy(cfg, cache, u, e, m) && z[m] == ScoreAfter(cache, u, m)
    ensures var c := ZAddStep(cfg, cache, u);
            Window(cfg.dir, z, c) && |c| == if |z| <= cfg.num then |z| else cfg.num
  {
    hide TakeIn, StaysBy, Window, Edge;
    assert cache != map[];
    EdgeUnique(cfg.dir, cache, e, Edge(cfg.dir, cache));
    var t := TakeIn(cfg, cache, u, e);
    forall m: string
      ensures (m in t <==> m in z) && (m in t ==> t[m] == z[m])
    {
      TakeInExact(cfg, cache, u, e, m);
    }
    assert t == z;
    TrimIsWindow(cfg.dir, z, cfg.num);
  }

  // Reloading

  /** Whether a window of memLen members is thrown away so as to be loaded again. */
  predicate ShouldReload(num: nat, memLen: nat, dbLen: nat) {
    if dbLen < num then memLen * 2 < dbLen else num != 0 && memLen * 2 < num
  }

  /** The window is thrown away exactly if it is under half of what it could be. */
  lemma {:induction false} ReloadUnderHalf(num: nat, memLen: nat, dbLen: nat)
    ensures ShouldReload(num, memLen, dbLen) <==> 2 * memLen < if dbLen <= num then dbLen else num
  {
  }

  function Reloaded(num: nat, cache: ZSet, memLen: nat, dbLen: nat): ZSet {
    if ShouldReload(num, memLen, dbLen) then map[] else cache
  }

  /** The window that LoadZset writes for a set, if none is cached. */
  function Load(cfg: Config, db: ZSet, cache: ZSet): ZSet {
    if cache != map[] then cache
    else if cfg.dir == FromBegin then TakeRank(db, 0, if cfg.num <= |db| then cfg.num - 1 else -1)
    else TakeRank(db, if cfg.num <= |db| then |db| - cfg.num else 0, -1)
  }

  lemma {:induction false} LoadIsTrim(cfg: Config, db: ZSet)
    requires cfg.num > 0
    ensures Load(cfg, db, map[]) == Trim(cfg.dir, db, cfg.num)
  {
    forall m | m in db
      ensures m in Load(cfg, db, map[]) <==> m in Trim(cfg.dir, db, cfg.num)
    {
      RankBelowSize(db, m);
    }
  }

  // zincrby

  /** The cache's part of an increment, given the new score that the database reports. */
  ghost function ZIncrbyStep(cfg: Config, cache: ZSet, dbLen: nat, m: string, increment: real, score: real): ZSet {
    if -EPSILON < increment < EPSILON || cache == map[] then cache
    else
      var e := Edge(cfg.dir, cache);
      if Nearer(cfg.dir, score, e) then Trim(cfg.dir, cache[m := score], cfg.num)
      else if score == e then
        Reloaded(cfg.num, RemScore(cache - {m}, ScoreRange(Incl(e), Incl(e))), |cache|, dbLen)
      else Reloaded(cfg.num, cache - {m}, |cache|, dbLen)
  }

  function Incremented(db: ZSet, m: string, increment: real): real {
    (if m in db then db[m] else 0.0) + increment
  }

  function Sum(xs: seq<real>): real {
    if xs == [] then 0.0 else Sum(xs[..|xs| - 1]) + xs[|xs| - 1]
  }

  function IncrementedBy(db: ZSet, m: string, xs: seq<real>): ZSet
    decreases |xs|
  {
    if xs == [] then db
    else
      var z := IncrementedBy(db, m, xs[..|xs| - 1]);
      z[m := Incremented(z, m, xs[|xs| - 1])]
  }

  /** Increments add up, from the score that the member has, or from zero. */
  lemma {:induction false} IncrementsAddUp(db: ZSet, m: string, xs: seq<real>)
    requires xs != []
    ensures IncrementedBy(db, m, xs) == db[m := (if m in db then db[m] else 0.0) + Sum(xs)]
  {
    var n := |xs| - 1;
    if n > 0 {
      IncrementsAddUp(db, m, xs[..n]);
    }
  }

  /**
   An increment below epsilon changes the database but not the cache. The window survives that exactly
   when a cached member keeps its score, and one that is not cached does not come ahead of the window.
   */
  lemma {:induction false} SkippedIncrementExact(dir: Direction, db: ZSet, cache: ZSet, m: string, score: real)
    requires Window(dir, db, cache)
    ensures Window(dir, db[m := score], cache)
            <==> if m in cache then score == cache[m]
                 else forall x | x in cache :: !Ahead(dir, Elem(score, m), At(cache, x))
  {
    var db' := db[m := score];
    if m !in cache && (forall x | x in cache :: !Ahead(dir, Elem(score, m), At(cache, x))) {
      forall x, k | x in cache && x in db' && k in db' && Ahead(dir, At(db', k), At(db', x))
        ensures k in cache
      {
        assert At(db', x) == At(cache, x) && (k != m ==> At(db', k) == At(db, k));
      }
    } else if m !in cache {
      var x :| x in cache && Ahead(dir, Elem(score, m), At(cache, x));
      assert At(db', m) == Elem(score, m) && At(db', x) == At(cache, x);
    }
  }

  lemma {:induction false} AddNearKeeps(dir: Direction, db: ZSet, cache: ZSet, m: string, score: real, e: real)
    requires Window(dir, db, cache) && IsEdge(dir, cache, e) && Nearer(dir, score, e)
    ensures Window(dir, db[m := score], cache[m := score])
  {
    var db', c := db[m := score], cache[m := score];
    forall x, k | x in c && k in db' && Ahead(dir, At(db', k), At(db', x))
      ensures k in c
    {
      if k != m && x == m {
        NearerIsCached(dir, db, cache, e, k);
      }
    }
  }

  /** A member that moves to the edge or beyond it leaves the cache, and the edge with it if it is met. */
  lemma {:induction false} MoveOutKeeps(dir: Direction, db: ZSet, cache: ZSet, m: string, score: real, e: real)
    requires Window(dir, db, cache) && IsEdge(dir, cache, e) && !Nearer(dir, score, e)
    ensures score != e ==> Window(dir, db[m := score], cache - {m})
    ensures score == e ==> Window(dir, db[m := score], RemScore(cache - {m}, ScoreRange(Incl(e), Incl(e))))
  {
    var db' := db[m := score];
    var c := if score == e then RemScore(cache - {m}, ScoreRange(Incl(e), Incl(e))) else cache - {m};
    forall x, k | x in c && k in db' && Ahead(dir, At(db', k), At(db', x))
      ensures k in c
    {
      assert x in cache && At(db', x) == At(db, x);
    }
  }

  /** The three ways a new score can lie to the edge. */
  lemma {:induction false} NewScoreKeeps(cfg: Config, db: ZSet, cache: ZSet, m: string, increment: real, score: real, dbLen: nat)
    requires Window(cfg.dir, db, cache) && |cache| <= cfg.num && cache != map[] && !(-EPSILON < increment < EPSILON)
    ensures var c := ZIncrbyStep(cfg, cache, dbLen, m, increment, score);
            Window(cfg.dir, db[m := score], c) && |c| <= cfg.num
  {
    hide Window, Trim, RemScore, ShouldReload, Edge, IsEdge, Nearer;
    var e := Edge(cfg.dir, cache);
    WholeIsWindow(cfg.dir, db[m := score]);
    if Nearer(cfg.dir, score, e) {
      var c := cache[m := score];
      AddNearKeeps(cfg.dir, db, cache, m, score, e);
      TrimIsWindow(cfg.dir, c, cfg.num);
      WindowTransitive(cfg.dir, db[m := score], c, Trim(cfg.dir, c, cfg.num));
    } else {
      MoveOutKeeps(cfg.dir, db, cache, m, score, e);
      SmallerSets(cache, m, e);
    }
  }

  lemma {:induction false} ZIncrbyKeeps(cfg: Config, db: ZSet, cache: ZSet, m: string, increment: real)
    requires Window(cfg.dir, db, cache) && |cache| <= cfg.num
    requires (increment == 0.0 && m in db) || !(-EPSILON < increment < EPSILON)
    ensures var score := Incremented(db, m, increment);
            var c := ZIncrbyStep(cfg, cache, |db[m := score]|, m, increment, score);
            Window(cfg.dir, db[m := score], c) && |c| <= cfg.num
  {
    hide Window, Trim, RemScore, Reloaded, Edge, Nearer;
    var score := Incremented(db, m, increment);
    if -EPSILON < increment < EPSILON {
      assert db[m := score] == db;
    } else if cache == map[] {
      WholeIsWindow(cfg.dir, db[m := score]);
    } else {
      NewScoreKeeps(cfg, db, cache, m, increment, score, |db[m := score]|);
    }
  }

  /**
   What zincrby leaves in the cache. A score nearer than the edge is taken in, and the farthest member goes if
   there is one too many. Any other costs the cache that member, and those on the edge if the edge is met;
   then the window may be thrown away.
   */
  lemma {:induction false} ZIncrbyLeaves(cfg: Config, cache: ZSet, dbLen: nat, m: string, increment: real, score: real, e: real)
    requires IsEdge(cfg.dir, cache, e) && |cache| <= cfg.num && !(-EPSILON < increment < EPSILON)
    ensures var c := ZIncrbyStep(cfg, cache, dbLen, m, increment, score);
            if Nearer(cfg.dir, score, e) then
              && Window(cfg.dir, cache[m := score], c) && m in c
              && |c| == if |cache.Keys + {m}| <= cfg.num then |cache.Keys + {m}| else cfg.num
            else if 2 * |cache| < (if dbLen <= cfg.num then dbLen else cfg.num) then c == map[]
            else
              && (forall x :: x in c <==> x in cache && x != m && (score == e ==> cache[x] != e))
              && (forall x | x in c :: c[x] == cache[x])
  {
    hide Trim, Window, ShouldReload, Edge;
    assert cache != map[];
    EdgeUnique(cfg.dir, cache, e, Edge(cfg.dir, cache));
    ReloadUnderHalf(cfg.num, |cache|, dbLen);
    if Nearer(cfg.dir, score, e) {
      var z := cache[m := score];
      assert z.Keys == cache.Keys + {m};
      TrimIsWindow(cfg.dir, z, cfg.num);
      NewMemberStays(cfg, cache, m, score, e, Trim(cfg.dir, z, cfg.num));
    }
  }

  /** One member too many is not the one that was just taken in near the end. */
  lemma {:induction false} NewMemberStays(cfg: Config, cache: ZSet, m: string, score: real, e: real, c: ZSet)
    requires IsEdge(cfg.dir, cache, e) && Nearer(cfg.dir, score, e) && |cache| <= cfg.num
    requires Window(cfg.dir, cache[m := score], c) && |c| == if |cache[m := score]| <= cfg.num then |cache[m := score]| else cfg.num
    ensures m in c
  {
    var z := cache[m := score];
    if m !in c {
      var x :| x in cache && cache[x] == e;
      assert z.Keys == cache.Keys + {m};
      if m in cache {
        assert z.Keys == cache.Keys;
        SubsetSmaller(c.Keys, z.Keys, m);
      } else {
        assert Ahead(cfg.dir, At(z, m), At(z, x)) && x !in c;
        assert c.Keys <= z.Keys - {m} - {x};
        SubsetAtMost(c.Keys, z.Keys - {m} - {x});
      }
    }
  }

  lemma {:induction false} SmallerSets(cache: ZSet, m: string, e: real)
    ensures |cache - {m}| <= |cache|
    ensures |RemScore(cache - {m}, ScoreRange(Incl(e), Incl(e)))| <= |cache|
  {
    var c := RemScore(cache - {m}, ScoreRange(Incl(e), Incl(e)));
    SubsetAtMost((cache - {m}).Keys, cache.Keys);
    SubsetAtMost(c.Keys, cache.Keys);
  }

  // Removals by score

  /** The range that an empty lower and an empty upper bound make; None if the cache server refuses them. */
  function EmptyRange(b: EmptyBound): Option<ScoreRange> {
    match b
    case Rejected => None
    case ReadAs(v) => Some(ScoreRange(Incl(v), Incl(v)))
  }

  /** Two empty bounds that read as a number take in that score alone. */
  lemma {:induction false} EmptyRangeTakes(b: EmptyBound, score: real)
    ensures EmptyRange(b).Some? <==> b.ReadAs?
    ensures b.ReadAs? ==> (InRange(score, EmptyRange(b).value) <==> score == b.v)
  {
  }

  /** The cached members in the range that the cache is handed. */
  function ScoresGone(cache: ZSet, handed: Option<ScoreRange>): set<string> {
    if handed.None? then {} else InScores(cache, handed.value)
  }

  /** The cache's part of a removal by score: its own range, and then the test whether to reload. */
  function ZRemScoreStep(cfg: Config, cache: ZSet, dbNow: nat, handed: Option<ScoreRange>): ZSet {
    var left := cache - ScoresGone(cache, handed);
    Reloaded(cfg.num, left, |left|, dbNow)
  }

  /** What a removal by score asks for: a reload, or ranges that agree on what is cached. */
  predicate ScoreRemovalFits(cfg: Config, cache: ZSet, dbNow: nat, range: ScoreRange, handed: Option<ScoreRange>) {
    || ShouldReload(cfg.num, |cache - ScoresGone(cache, handed)|, dbNow)
    || RemovalsAgree(cfg.dir, cache, InScores(cache, range), ScoresGone(cache, handed))
  }

  /**
   The database removes one range of scores and the cache whatever range it is handed: the window survives
   if and only if the key is reloaded or the two agree on what is cached.
   */
  lemma {:induction false} ZRemScoreExact(cfg: Config, db: ZSet, cache: ZSet, range: ScoreRange, handed: Option<ScoreRange>)
    requires Window(cfg.dir, db, cache)
    ensures var db' := RemScore(db, range);
            var c := ZRemScoreStep(cfg, cache, |db'|, handed);
            && |c| <= |cache|
            && (Window(cfg.dir, db', c) <==> ScoreRemovalFits(cfg, cache, |db'|, range, handed))
  {
    hide ScoresGone, ShouldReload, Closed, InRange;
    var db' := RemScore(db, range);
    var lost, gone := InScores(db, range), ScoresGone(cache, handed);
    assert db' == db - lost;
    SubsetAtMost((cache - gone).Keys, cache.Keys);
    RemovalsExact(cfg.dir, db, cache, lost, gone);
    SameLoss(cfg.dir, cache, lost, InScores(cache, range), gone);
    WholeIsWindow(cfg.dir, db');
  }

  lemma {:induction false} SameRangeFits(cfg: Config, cache: ZSet, dbNow: nat, range: ScoreRange)
    ensures ScoreRemovalFits(cfg, cache, dbNow, range, Some(range))
  {
    hide ShouldReload, InRange, Ahead;
  }

  lemma {:induction false} SameLoss(dir: Direction, cache: ZSet, a: set<string>, b: set<string>, gone: set<string>)
    requires forall m | m in cache :: m in a <==> m in b
    ensures RemovalsAgree(dir, cache, a, gone) <==> RemovalsAgree(dir, cache, b, gone)
  {
  }

  // Removals by lexicographic range

  datatype LexBound = LexInfinite | LexIncl(m: string) | LexExcl(m: string)

  datatype LexRange = LexRange(lo: LexBound, hi: LexBound)

  predicate InLex(m: string, r: LexRange) {
    && (match r.lo
        case LexInfinite => true
        case LexIncl(b) => !LexLess(m, b)
        case LexExcl(b) => LexLess(b, m))
    && (match r.hi
        case LexInfinite => true
        case LexIncl(b) => !LexLess(b, m)
        case LexExcl(b) => LexLess(m, b))
  }

  /** A closed bound takes itself in, an open one does not, and either takes in all that is beyond it. */
  lemma {:induction false} LexBounds(m: string, b: string)
    ensures InLex(m, LexRange(LexIncl(b), LexInfinite)) <==> m == b || LexLess(b, m)
    ensures InLex(m, LexRange(LexExcl(b), LexInfinite)) <==> LexLess(b, m)
    ensures InLex(m, LexRange(LexInfinite, LexIncl(b))) <==> m == b || LexLess(m, b)
    ensures InLex(m, LexRange(LexInfinite, LexExcl(b))) <==> LexLess(m, b)
    ensures InLex(m, LexRange(LexInfinite, LexInfinite))
  {
    LexTotal(m, b);
    LexIrreflexive(b);
    if LexLess(m, b) && LexLess(b, m) { LexTransitive(b, m, b); }
  }

  lemma {:induction false} LexRangeSplits(m: string, r: LexRange)
    ensures InLex(m, r) <==> InLex(m, LexRange(r.lo, LexInfinite)) && InLex(m, LexRange(LexInfinite, r.hi))
  {
  }

  function InLexes(z: ZSet, r: LexRange): set<string> {
    set m | m in z && InLex(m, r)
  }

  predicate CacheSizeEqsDB(dbLen: nat, cacheLen: nat) {
    dbLen == cacheLen && cacheLen != 0
  }

  /** The members that the cache removes, after it has compared its size with that of the database. */
  function LexesGone(cache: ZSet, dbNow: nat, handed: Option<LexRange>): set<string> {
    if CacheSizeEqsDB(dbNow, |cache|) && handed.Some? then InLexes(cache, handed.value) else {}
  }

  function ZRemLexStep(cache: ZSet, dbNow: nat, handed: Option<LexRange>): ZSet {
    cache - LexesGone(cache, dbNow, handed)
  }

  predicate LexRemovalFits(dir: Direction, cache: ZSet, dbNow: nat, range: LexRange, handed: Option<LexRange>) {
    RemovalsAgree(dir, cache, InLexes(cache, range), LexesGone(cache, dbNow, handed))
  }

  /**
   The database removes one lexicographic range and the cache, if it is as large as what is left, whatever
   range it is handed: the window survives if and only if the two agree on what is cached.
   */
  lemma {:induction false} ZRemLexExact(dir: Direction, db: ZSet, cache: ZSet, range: LexRange, handed: Option<LexRange>)
    requires Window(dir, db, cache)
    ensures var db' := db - InLexes(db, range);
            var c := ZRemLexStep(cache, |db'|, handed);
            && |c| <= |cache|
            && (Window(dir, db', c) <==> LexRemovalFits(dir, cache, |db'|, range, handed))
  {
    hide LexesGone, Closed, InLex;
    var lost := InLexes(db, range);
    var gone := LexesGone(cache, |db - lost|, handed);
    SubsetAtMost((cache - gone).Keys, cache.Keys);
    RemovalsExact(dir, db, cache, lost, gone);
    SameLoss(dir, cache, lost, InLexes(cache, range), gone);
  }

  /** Handed the same range, or none because its bounds are refused, the cache is exact in these cases only. */
  lemma {:induction false} LexCases(dir: Direction, cache: ZSet, dbNow: nat, range: LexRange)
    ensures LexRemovalFits(dir, cache, dbNow, range, Some(range))
            <==> CacheSizeEqsDB(dbNow, |cache|) || (forall m | m in cache :: !InLex(m, range))
    ensures LexRemovalFits(dir, cache, dbNow, range, None) <==> forall m | m in cache :: !InLex(m, range)
  {
    hide InLex, Ahead;
    forall m | m in cache
      ensures m in InLexes(cache, range) <==> InLex(m, range)
    {
    }
  }

  // Removals by rank

  /** Conversion to a 32-bit signed integer. */
  function Int32(x: int): (r: int)
    ensures -0x8000_0000 <= r < 0x8000_0000
    ensures -0x8000_0000 <= x < 0x8000_0000 ==> r == x
  {
    (x + 0x8000_0000) % 0x1_0000_0000 - 0x8000_0000
  }

  predicate IsInt32(x: int) {
    -0x8000_0000 <= x < 0x8000_0000
  }

  /** The first and last rank that PikaCache computes from the arguments, for a set of dbLen members. */
  function FirstIndex(dbLen: int, start: int): nat {
    var i := Int32(if start >= 0 then start else dbLen + start);
    if i <= 0 then 0 else i
  }

  function LastIndex(dbLen: int, stop: int): int {
    var j := Int32(if stop >= 0 then stop else dbLen + stop);
    if j >= dbLen then dbLen - 1 else j
  }

  /** The cache's part of a removal by rank; the database is said to have lost `deleted` members. */
  function ZRemRankStep(cfg: Config, cache: ZSet, dbNow: nat, deleted: int, start: int, stop: int): ZSet {
    var dbLen := dbNow + deleted;
    var lo, hi := FirstIndex(dbLen, start), LastIndex(dbLen, stop);
    if cache == map[] || lo > hi then cache
    else if cfg.dir == FromBegin then
      if lo <= |cache| then Reloaded(cfg.num, RemRank(cache, lo, hi), |cache|, dbNow) else cache
    else if |cache| <= dbLen && hi >= dbLen - |cache| then
      var cacheMin := if lo - (dbLen - |cache|) <= 0 then 0 else lo - (dbLen - |cache|);
      var cacheMax := if hi - (dbLen - |cache|) >= |cache| then |cache| - 1 else hi - (dbLen - |cache|);
      Reloaded(cfg.num, RemRank(cache, cacheMin, cacheMax), |cache|, dbNow)
    else cache
  }

  // When the window survives a removal by rank

  /** The ranks from lo to hi. */
  datatype Ranks = Ranks(lo: int, hi: int) {
    predicate Has(r: int) {
      lo <= r <= hi
    }
  }

  /** The guard of the branch that removes from the cache and then looks whether to reload. */
  predicate RemovesRanks(dir: Direction, cacheLen: nat, dbLen: int, start: int, stop: int) {
    var lo, hi := FirstIndex(dbLen, start), LastIndex(dbLen, stop);
    && cacheLen > 0 && lo <= hi
    && if dir == FromBegin then lo <= cacheLen else cacheLen <= dbLen && hi >= dbLen - cacheLen
  }

  /** The cache's own ranks that the cache loses. */
  function RanksGone(dir: Direction, cacheLen: nat, dbLen: int, start: int, stop: int): Ranks {
    var shift := if dir == FromBegin then 0 else dbLen - cacheLen;
    if RemovesRanks(dir, cacheLen, dbLen, start, stop) then
      Ranks(FirstIndex(dbLen, start) - shift, LastIndex(dbLen, stop) - shift)
    else Ranks(0, -1)
  }

  /** The cache's own ranks of the members that the database loses. */
  function RanksLost(dir: Direction, cacheLen: nat, dbLen: nat, start: int, stop: int): Ranks {
    var shift := if dir == FromBegin then 0 else dbLen - cacheLen;
    Ranks(Lowest(dbLen, Int32(start)) - shift, Highest(dbLen, Int32(stop)) - shift)
  }

  /** Of n cached ranks, all those lost are gone, and none gone for nothing is ahead of one that stays. */
  predicate RanksAgree(dir: Direction, n: nat, lost: Ranks, gone: Ranks) {
    && (forall r | 0 <= r < n && lost.Has(r) :: gone.Has(r))
    && (forall r, x | 0 <= r < n && 0 <= x < n && gone.Has(r) && !lost.Has(r) && !gone.Has(x) ::
          if dir == FromBegin then x < r else r < x)
  }

  /** What a removal by rank asks for: a reload, or indices that mean the same to the cache as to the database. */
  predicate RankRemovalFits(cfg: Config, dbLen: nat, dbNow: nat, cacheLen: nat, deleted: int, start: int, stop: int) {
    || (RemovesRanks(cfg.dir, cacheLen, dbNow + deleted, start, stop) && ShouldReload(cfg.num, cacheLen, dbNow))
    || RanksAgree(cfg.dir, cacheLen, RanksLost(cfg.dir, cacheLen, dbLen, start, stop),
                  RanksGone(cfg.dir, cacheLen, dbNow + deleted, start, stop))
  }

  lemma {:induction false} RemRankIsWithoutRanks(z: ZSet, start: int, stop: int)
    ensures RemRank(z, start, stop) == WithoutRanks(z, 0, Lowest(|z|, start), Highest(|z|, stop))
  {
  }

  lemma {:induction false} ClippedRanks(z: ZSet, lo: int, hi: int)
    requires hi >= 0 && z != map[]
    ensures RemRank(z, if lo <= 0 then 0 else lo, if hi >= |z| then |z| - 1 else hi) == WithoutRanks(z, 0, lo, hi)
    ensures lo >= 0 ==> RemRank(z, lo, hi) == WithoutRanks(z, 0, lo, hi)
  {
    forall m | m in z
      ensures Rank(z, m) < |z|
    {
      RankBelowSize(z, m);
    }
    hide Rank;
  }

  /** Up to a reload, the cache loses exactly the ranks that are gone, for any indices and any count of deletions. */
  lemma {:induction false} StepTakesRanks(cfg: Config, cache: ZSet, dbNow: nat, deleted: int, start: int, stop: int)
    ensures var gone := RanksGone(cfg.dir, |cache|, dbNow + deleted, start, stop);
            var left := WithoutRanks(cache, 0, gone.lo, gone.hi);
            ZRemRankStep(cfg, cache, dbNow, deleted, start, stop)
            == if RemovesRanks(cfg.dir, |cache|, dbNow + deleted, start, stop) then Reloaded(cfg.num, left, |cache|, dbNow)
               else left
  {
    hide FirstIndex, LastIndex, RemRank, Reloaded, Rank;
    var gone := RanksGone(cfg.dir, |cache|, dbNow + deleted, start, stop);
    if RemovesRanks(cfg.dir, |cache|, dbNow + deleted, start, stop) {
      ClippedRanks(cache, gone.lo, gone.hi);
    } else {
      assert WithoutRanks(cache, 0, gone.lo, gone.hi) == cache;
    }
  }

  lemma {:induction false} AgreeingRanksKeep(dir: Direction, db: ZSet, cache: ZSet, lo: int, hi: int, shift: nat, gone: Ranks)
    requires Window(dir, db, cache) && |cache| <= |db| && shift == if dir == FromBegin then 0 else |db| - |cache|
    requires RanksAgree(dir, |cache|, Ranks(lo - shift, hi - shift), gone)
    ensures Window(dir, WithoutRanks(db, 0, lo, hi), WithoutRanks(cache, 0, gone.lo, gone.hi))
  {
    hide Rank, Before;
    var lost := Ranks(lo - shift, hi - shift);
    var db', c := WithoutRanks(db, 0, lo, hi), WithoutRanks(cache, 0, gone.lo, gone.hi);
    forall m | m in cache
      ensures m in db && db[m] == cache[m] && Rank(db, m) == Rank(cache, m) + shift && Rank(cache, m) < |cache|
    {
      WindowRank(dir, db, cache, m);
      RankBelowSize(cache, m);
    }
    forall m | m in c
      ensures m in db' && db'[m] == c[m]
    {
      assert !gone.Has(Rank(cache, m)) && !lost.Has(Rank(cache, m));
    }
    forall m, k | m in c && k in db' && Ahead(dir, At(db', k), At(db', m))
      ensures k in c
    {
      assert At(db', k) == At(db, k) && At(db', m) == At(db, m);
      assert k in cache && At(cache, k) == At(db, k) && At(cache, m) == At(db, m);
      if dir == FromBegin { RankMonotone(cache, k, m); } else { RankMonotone(cache, m, k); }
      assert !lost.Has(Rank(cache, k)) && !gone.Has(Rank(cache, m));
      assert !gone.Has(Rank(cache, k));
    }
  }

  lemma {:induction false} KeptRanksAgree(dir: Direction, db: ZSet, cache: ZSet, lo: int, hi: int, shift: nat, gone: Ranks)
    requires Window(dir, db, cache) && |cache| <= |db| && shift == if dir == FromBegin then 0 else |db| - |cache|
    requires Window(dir, WithoutRanks(db, 0, lo, hi), WithoutRanks(cache, 0, gone.lo, gone.hi))
    ensures RanksAgree(dir, |cache|, Ranks(lo - shift, hi - shift), gone)
  {
    hide Rank, Before, Order;
    var lost := Ranks(lo - shift, hi - shift);
    var db', c := WithoutRanks(db, 0, lo, hi), WithoutRanks(cache, 0, gone.lo, gone.hi);
    forall r | 0 <= r < |cache| && lost.Has(r)
      ensures gone.Has(r)
    {
      var m := MemberOfRank(dir, db, cache, shift, r);
      assert m !in db';
    }
    forall r, x | 0 <= r < |cache| && 0 <= x < |cache| && gone.Has(r) && !lost.Has(r) && !gone.Has(x)
      ensures if dir == FromBegin then x < r else r < x
    {
      var k := MemberOfRank(dir, db, cache, shift, r);
      var m := MemberOfRank(dir, db, cache, shift, x);
      assert m in c && k in db' && k !in c && m in db';
      assert At(db', k) == At(cache, k) && At(db', m) == At(cache, m);
      RankInjective(cache, k, m);
      RankInjective(cache, m, k);
    }
  }

  lemma {:induction false} MemberOfRank(dir: Direction, db: ZSet, cache: ZSet, shift: nat, r: nat) returns (m: string)
    requires Window(dir, db, cache) && r < |cache| && |cache| <= |db| && shift == if dir == FromBegin then 0 else |db| - |cache|
    ensures m in cache && m in db && db[m] == cache[m] && Rank(cache, m) == r && Rank(db, m) == r + shift
  {
    OrderRank(cache, r);
    m := Order(cache)[r].member;
    WindowRank(dir, db, cache, m);
  }

  /**
   For all indices and whatever count of deletions the caller passes, a removal by rank keeps the window if
   and only if the key is reloaded or the indices mean the same to the cache as to the database.
   */
  lemma {:induction false} ZRemRankExact(cfg: Config, db: ZSet, cache: ZSet, deleted: int, start: int, stop: int)
    requires Window(cfg.dir, db, cache)
    ensures var db' := RemRank(db, Int32(start), Int32(stop));
            var c := ZRemRankStep(cfg, cache, |db'|, deleted, start, stop);
            && |c| <= |cache|
            && (Window(cfg.dir, db', c) <==> RankRemovalFits(cfg, |db|, |db'|, |cache|, deleted, start, stop))
  {
    hide *;
    var db' := RemRank(db, Int32(start), Int32(stop));
    WindowSize(cfg.dir, db, cache);
    RemRankIsWithoutRanks(db, Int32(start), Int32(stop));
    StepTakesRanks(cfg, cache, |db'|, deleted, start, stop);
    ReloadExact(cfg, db, cache, db', deleted, start, stop, RanksGone(cfg.dir, |cache|, |db'| + deleted, start, stop));
  }

  lemma {:induction false} ReloadExact(cfg: Config, db: ZSet, cache: ZSet, db': ZSet, deleted: int, start: int, stop: int, gone: Ranks)
    requires Window(cfg.dir, db, cache) && |cache| <= |db| && gone == RanksGone(cfg.dir, |cache|, |db'| + deleted, start, stop)
    requires db' == WithoutRanks(db, 0, Lowest(|db|, Int32(start)), Highest(|db|, Int32(stop)))
    ensures var left := WithoutRanks(cache, 0, gone.lo, gone.hi);
            var c := if RemovesRanks(cfg.dir, |cache|, |db'| + deleted, start, stop) then Reloaded(cfg.num, left, |cache|, |db'|) else left;
            && |c| <= |cache|
            && (Window(cfg.dir, db', c) <==> RankRemovalFits(cfg, |db|, |db'|, |cache|, deleted, start, stop))
  {
    hide Window, WithoutRanks, RanksGone, RemovesRanks, RanksAgree, Lowest, Highest, Int32, ShouldReload;
    var shift := if cfg.dir == FromBegin then 0 else |db| - |cache|;
    NoMoreRanks(cache, 0, gone.lo, gone.hi);
    WholeIsWindow(cfg.dir, db');
    RanksExact(cfg.dir, db, cache, Lowest(|db|, Int32(start)), Highest(|db|, Int32(stop)), shift, gone);
  }

  lemma {:induction false} RanksExact(dir: Direction, db: ZSet, cache: ZSet, lo: int, hi: int, shift: nat, gone: Ranks)
    requires Window(dir, db, cache) && |cache| <= |db| && shift == if dir == FromBegin then 0 else |db| - |cache|
    ensures Window(dir, WithoutRanks(db, 0, lo, hi), WithoutRanks(cache, 0, gone.lo, gone.hi))
            <==> RanksAgree(dir, |cache|, Ranks(lo - shift, hi - shift), gone)
  {
    hide Window, WithoutRanks, RanksAgree;
    if RanksAgree(dir, |cache|, Ranks(lo - shift, hi - shift), gone) {
      AgreeingRanksKeep(dir, db, cache, lo, hi, shift, gone);
    }
    if Window(dir, WithoutRanks(db, 0, lo, hi), WithoutRanks(cache, 0, gone.lo, gone.hi)) {
      KeptRanksAgree(dir, db, cache, lo, hi, shift, gone);
    }
  }

  lemma {:induction false} NoMoreRanks(z: ZSet, shift: nat, lo: int, hi: int)
    ensures |WithoutRanks(z, shift, lo, hi)| <= |z|
  {
    SubsetAtMost(WithoutRanks(z, shift, lo, hi).Keys, z.Keys);
  }

  lemma {:induction false} NoTruncation(len: nat, i: int)
    requires IsInt32(i) && IsInt32(len)
    ensures FirstIndex(len, i) == Lowest(len, Int32(i)) && LastIndex(len, i) == Highest(len, Int32(i))
  {
  }

  /** With indices and a length of 32 bits, and the true count of deletions, the indices always fit. */
  lemma {:induction false} NarrowRanksFit(cfg: Config, dbLen: nat, dbNow: nat, cacheLen: nat, start: int, stop: int)
    requires cacheLen <= dbLen && IsInt32(start) && IsInt32(stop) && IsInt32(dbLen)
    ensures RankRemovalFits(cfg, dbLen, dbNow, cacheLen, dbLen - dbNow, start, stop)
  {
    hide FirstIndex, LastIndex, Int32;
    NoTruncation(dbLen, start);
    NoTruncation(dbLen, stop);
  }

  /** Within 32 bits, and told how many members were deleted, a removal by rank keeps the window. */
  lemma {:induction false} ZRemRankKeeps(cfg: Config, db: ZSet, cache: ZSet, start: int, stop: int)
    requires Window(cfg.dir, db, cache) && IsInt32(start) && IsInt32(stop) && IsInt32(|db|)
    ensures var db' := RemRank(db, Int32(start), Int32(stop));
            Window(cfg.dir, db', ZRemRankStep(cfg, cache, |db'|, |db| - |db'|, start, stop))
  {
    hide Window, RemRank, ZRemRankStep, RankRemovalFits, Int32;
    var db' := RemRank(db, Int32(start), Int32(stop));
    WindowNoLarger(cfg.dir, db, cache);
    ZRemRankExact(cfg, db, cache, |db| - |db'|, start, stop);
    NarrowRanksFit(cfg, |db|, |db'|, |cache|, start, stop);
  }
}
