/**
 Reads answered from the cache: when the index, score and size tests of PikaCache say that the cached
 window is enough, and exactly when what the cache is then asked gives the database's answer.
 */
module ZSetReads {
  import opened ZSet
  import opened ZSetWindow
  import opened ZSetSteps
  import opened Wrappers

  datatype RangeStatus = RangeError | RangeHit | RangeMiss

  datatype Checked = Checked(status: RangeStatus, start: int, stop: int)

  // References: what the commands return for an ordered sequence

  function RangeOf(s: seq<Elem>, start: int, stop: int): seq<Elem> {
    var lo, hi := Lowest(|s|, start), Highest(|s|, stop);
    if lo > hi then [] else s[lo..hi + 1]
  }

  function Reverse(s: seq<Elem>): (r: seq<Elem>)
    ensures |r| == |s|
  {
    seq(|s|, i requires 0 <= i < |s| => s[|s| - 1 - i])
  }

  function Matching(s: seq<Elem>, r: ScoreRange): seq<Elem> {
    if s == [] then []
    else (if InRange(s[0].score, r) then [s[0]] else []) + Matching(s[1..], r)
  }

  /** The part that a LIMIT clause leaves: nothing from a negative offset, all the rest for a negative count. */
  function Limited(s: seq<Elem>, offset: int, count: int): seq<Elem> {
    var rest := if 0 <= offset <= |s| then s[offset..] else [];
    if 0 <= count < |rest| then rest[..count] else rest
  }

  // The tests of PikaCache

  function CheckCacheRange(dir: Direction, cacheLen: nat, dbLen: nat, start: int, stop: int): Checked {
    var a := if start >= 0 then start else dbLen + start;
    var b := if stop >= 0 then stop else dbLen + stop;
    var outStart := if a <= 0 then 0 else a;
    var outStop := if b >= dbLen then dbLen - 1 else b;
    if outStart > outStop || outStart >= dbLen || outStop < 0 then Checked(RangeError, outStart, outStop)
    else if dir == FromBegin then
      Checked(if outStart < cacheLen && outStop < cacheLen then RangeHit else RangeMiss, outStart, outStop)
    else if outStart >= dbLen - cacheLen && outStop >= dbLen - cacheLen then
      Checked(RangeHit, outStart - (dbLen - cacheLen), outStop - (dbLen - cacheLen))
    else Checked(RangeMiss, outStart, outStop)
  }

  function CheckCacheRevRange(dir: Direction, cacheLen: nat, dbLen: nat, start: int, stop: int): Checked {
    var a := if stop >= 0 then dbLen - stop - 1 else -stop - 1;
    var b := if start >= 0 then dbLen - start - 1 else -start - 1;
    var startIndex := if a <= 0 then 0 else a;
    var stopIndex := if b >= dbLen then dbLen - 1 else b;
    if startIndex > stopIndex || startIndex >= dbLen || stopIndex < 0 then Checked(RangeError, 0, 0)
    else if dir == FromBegin then
      if startIndex < cacheLen && stopIndex < cacheLen then
        Checked(RangeHit, cacheLen - stopIndex - 1, cacheLen - startIndex - 1)
      else Checked(RangeMiss, 0, 0)
    else if startIndex >= dbLen - cacheLen && stopIndex >= dbLen - cacheLen then
      var cacheStart := startIndex - (dbLen - cacheLen);
      var cacheStop := stopIndex - (dbLen - cacheLen);
      Checked(RangeHit, cacheLen - cacheStop - 1, cacheLen - cacheStart - 1)
    else Checked(RangeMiss, 0, 0)
  }

  function CheckCacheRangeByScore(cfg: Config, cacheLen: nat, cacheMin: real, cacheMax: real,
                                  min: real, max: real, leftClose: bool, rightClose: bool): RangeStatus {
    var full := cacheLen == cfg.num;
    if cfg.dir == FromBegin then
      var enough := if full || rightClose then max < cacheMax else max <= cacheMax;
      if !enough then RangeMiss else if max < cacheMin then RangeError else RangeHit
    else
      var enough := if full || leftClose then min > cacheMin else min >= cacheMin;
      if !enough then RangeMiss else if min > cacheMax then RangeError else RangeHit
  }

  function RangeFor(min: real, max: real, leftClose: bool, rightClose: bool): ScoreRange {
    ScoreRange(if leftClose then Incl(min) else Excl(min), if rightClose then Incl(max) else Excl(max))
  }

  // Index ranges

  /** The ranks that a command asks for, all of them cached. */
  predicate AllCached(dir: Direction, cacheLen: nat, dbLen: nat, lo: int, hi: int) {
    if dir == FromBegin then hi < cacheLen else dbLen - cacheLen <= lo
  }

  /**
   ZRANGE: an error exactly when the database's range is empty, otherwise a hit exactly when all of its
   ranks are cached, and then the translated slice of the cache is the database's answer.
   */
  lemma {:induction false} RangeHitExact(dir: Direction, db: ZSet, cache: ZSet, start: int, stop: int)
    requires Window(dir, db, cache)
    ensures var r := CheckCacheRange(dir, |cache|, |db|, start, stop);
            && (r.status == RangeError <==> RangeOf(Order(db), start, stop) == [])
            && (r.status == RangeHit <==>
                  && RangeOf(Order(db), start, stop) != []
                  && AllCached(dir, |cache|, |db|, Lowest(|db|, start), Highest(|db|, stop)))
            && (r.status == RangeHit ==> RangeOf(Order(cache), r.start, r.stop) == RangeOf(Order(db), start, stop))
  {
    hide Order, Window;
    WindowOrder(dir, db, cache);
    SliceOfWindow(dir, Order(db), Order(cache), start, stop);
  }

  lemma {:induction false} SliceOfWindow(dir: Direction, d: seq<Elem>, c: seq<Elem>, start: int, stop: int)
    requires |c| <= |d| && c == if dir == FromBegin then d[..|c|] else d[|d| - |c|..]
    ensures var r := CheckCacheRange(dir, |c|, |d|, start, stop);
            && (r.status == RangeError <==> RangeOf(d, start, stop) == [])
            && (r.status == RangeHit <==>
                  RangeOf(d, start, stop) != [] && AllCached(dir, |c|, |d|, Lowest(|d|, start), Highest(|d|, stop)))
            && (r.status == RangeHit ==> RangeOf(c, r.start, r.stop) == RangeOf(d, start, stop))
  {
    hide CheckCacheRange, Lowest, Highest;
    var r := CheckCacheRange(dir, |c|, |d|, start, stop);
    RangeIndices(dir, |c|, |d|, start, stop);
    if r.status == RangeHit {
      var shift := if dir == FromBegin then 0 else |d| - |c|;
      SlicesAgree(d, c, shift, Lowest(|d|, start), Highest(|d|, stop));
    }
  }

  /** The index arithmetic: a hit's indices are the shifted ranks, within the cache. */
  lemma {:induction false} RangeIndices(dir: Direction, cacheLen: nat, dbLen: nat, start: int, stop: int)
    requires cacheLen <= dbLen
    ensures var r := CheckCacheRange(dir, cacheLen, dbLen, start, stop);
            var shift := if dir == FromBegin then 0 else dbLen - cacheLen;
            var i, j := Lowest(dbLen, start), Highest(dbLen, stop);
            && (r.status == RangeError <==> j < i)
            && (r.status == RangeHit <==> i <= j && AllCached(dir, cacheLen, dbLen, i, j))
            && (r.status != RangeError ==> 0 <= i <= j < dbLen)
            && (r.status == RangeHit ==>
                  && shift <= i <= j < shift + cacheLen
                  && Lowest(cacheLen, r.start) == r.start == i - shift
                  && Highest(cacheLen, r.stop) == r.stop == j - shift)
  {
  }

  lemma {:induction false} SlicesAgree(d: seq<Elem>, c: seq<Elem>, shift: nat, lo: nat, hi: nat)
    requires shift + |c| <= |d| && c == d[shift..shift + |c|] && shift <= lo <= hi < shift + |c|
    ensures c[lo - shift..hi + 1 - shift] == d[lo..hi + 1]
  {
    assert forall i | lo <= i <= hi :: c[i - shift] == d[i];
  }

  /** A slice of the reversed sequence is a slice reversed. */
  lemma {:induction false} ReversedSlice(s: seq<Elem>, i: nat, j: nat)
    requires i <= j < |s|
    ensures Reverse(s)[|s| - 1 - j..|s| - i] == Reverse(s[i..j + 1])
  {
    var a, b := Reverse(s)[|s| - 1 - j..|s| - i], Reverse(s[i..j + 1]);
    forall k | 0 <= k < |a|
      ensures a[k] == b[k]
    {
      assert s[i..j + 1][j - i - k] == s[j - k];
    }
  }

  /** ZREVRANGE: the same over the reversed order. */
  lemma {:induction false} RevRangeHitExact(dir: Direction, db: ZSet, cache: ZSet, start: int, stop: int)
    requires Window(dir, db, cache)
    ensures var r := CheckCacheRevRange(dir, |cache|, |db|, start, stop);
            && (r.status == RangeError <==> RangeOf(Reverse(Order(db)), start, stop) == [])
            && (r.status == RangeHit <==>
                  && RangeOf(Reverse(Order(db)), start, stop) != []
                  && AllCached(dir, |cache|, |db|, |db| - 1 - Highest(|db|, stop), |db| - 1 - Lowest(|db|, start)))
            && (r.status == RangeHit ==>
                  RangeOf(Reverse(Order(cache)), r.start, r.stop) == RangeOf(Reverse(Order(db)), start, stop))
  {
    hide Order, Window;
    WindowOrder(dir, db, cache);
    RevSliceOfWindow(dir, Order(db), Order(cache), start, stop);
  }

  lemma {:induction false} RevSliceOfWindow(dir: Direction, d: seq<Elem>, c: seq<Elem>, start: int, stop: int)
    requires |c| <= |d| && c == if dir == FromBegin then d[..|c|] else d[|d| - |c|..]
    ensures var r := CheckCacheRevRange(dir, |c|, |d|, start, stop);
            && (r.status == RangeError <==> RangeOf(Reverse(d), start, stop) == [])
            && (r.status == RangeHit <==>
                  && RangeOf(Reverse(d), start, stop) != []
                  && AllCached(dir, |c|, |d|, |d| - 1 - Highest(|d|, stop), |d| - 1 - Lowest(|d|, start)))
            && (r.status == RangeHit ==> RangeOf(Reverse(c), r.start, r.stop) == RangeOf(Reverse(d), start, stop))
  {
    hide Reverse, CheckCacheRevRange, Lowest, Highest;
    var r := CheckCacheRevRange(dir, |c|, |d|, start, stop);
    RevIndices(dir, |c|, |d|, start, stop);
    if r.status == RangeHit {
      var shift := if dir == FromBegin then 0 else |d| - |c|;
      var i, j := |d| - 1 - Highest(|d|, stop), |d| - 1 - Lowest(|d|, start);
      ReversedSlice(d, i, j);
      SlicesAgree(d, c, shift, i, j);
      ReversedSlice(c, i - shift, j - shift);
    }
  }

  /** The index arithmetic: a hit's indices are the reversed ranks, within the cache. */
  lemma {:induction false} RevIndices(dir: Direction, cacheLen: nat, dbLen: nat, start: int, stop: int)
    requires cacheLen <= dbLen
    ensures var r := CheckCacheRevRange(dir, cacheLen, dbLen, start, stop);
            var shift := if dir == FromBegin then 0 else dbLen - cacheLen;
            var i, j := dbLen - 1 - Highest(dbLen, stop), dbLen - 1 - Lowest(dbLen, start);
            && (r.status == RangeError <==> j < i)
            && (r.status == RangeHit <==> i <= j && AllCached(dir, cacheLen, dbLen, i, j))
            && (r.status != RangeError ==> 0 <= i <= j < dbLen)
            && (r.status == RangeHit ==>
                  && shift <= i <= j < shift + cacheLen
                  && Lowest(cacheLen, r.start) == r.start == cacheLen - 1 - (j - shift)
                  && Highest(cacheLen, r.stop) == r.stop == cacheLen - 1 - (i - shift))
  {
  }

  // Indices of 64 bits for the cache and of 32 bits for the database

  ghost predicate NoRepeats(s: seq<Elem>) {
    forall i, j | 0 <= i < j < |s| :: s[i] != s[j]
  }

  lemma {:induction false} OrderHasNoRepeats(z: ZSet)
    ensures NoRepeats(Order(z)) && NoRepeats(Reverse(Order(z)))
  {
    hide Order, Rank;
    var s := Order(z);
    forall i, j | 0 <= i < j < |s|
      ensures s[i] != s[j]
    {
      OrderRank(z, i);
      OrderRank(z, j);
    }
  }

  /** The two forms of the indices name the same ranks. */
  predicate SameRanks(dbLen: nat, start: int, stop: int) {
    Lowest(dbLen, start) == Lowest(dbLen, Int32(start)) && Highest(dbLen, stop) == Highest(dbLen, Int32(stop))
  }

  lemma {:induction false} SlicesEqualExact(s: seq<Elem>, start: int, stop: int, start': int, stop': int)
    requires NoRepeats(s) && RangeOf(s, start, stop) != []
    ensures RangeOf(s, start, stop) == RangeOf(s, start', stop')
            <==> Lowest(|s|, start) == Lowest(|s|, start') && Highest(|s|, stop) == Highest(|s|, stop')
  {
    var a, b := RangeOf(s, start, stop), RangeOf(s, start', stop');
    var lo, lo' := Lowest(|s|, start), Lowest(|s|, start');
    if a == b {
      assert a[0] == s[lo] && b[0] == s[lo'];
    }
  }

  /**
   ZRANGE as a command: the cache is asked with indices of 64 bits and the database with their low 32 bits,
   so that a hit is the database's answer if and only if both forms name the same ranks.
   */
  lemma {:induction false} RangeReadExact(dir: Direction, db: ZSet, cache: ZSet, start: int, stop: int)
    requires Window(dir, db, cache)
    ensures var r := CheckCacheRange(dir, |cache|, |db|, start, stop);
            r.status == RangeHit ==>
              (RangeOf(Order(cache), r.start, r.stop) == RangeOf(Order(db), Int32(start), Int32(stop))
               <==> SameRanks(|db|, start, stop))
  {
    hide Order, Window, RangeOf, NoRepeats, Int32, Lowest, Highest, CheckCacheRange;
    RangeHitExact(dir, db, cache, start, stop);
    OrderHasNoRepeats(db);
    if RangeOf(Order(db), start, stop) != [] {
      SlicesEqualExact(Order(db), start, stop, Int32(start), Int32(stop));
    }
  }

  /** ZREVRANGE as a command: the same condition. */
  lemma {:induction false} RevRangeReadExact(dir: Direction, db: ZSet, cache: ZSet, start: int, stop: int)
    requires Window(dir, db, cache)
    ensures var r := CheckCacheRevRange(dir, |cache|, |db|, start, stop);
            r.status == RangeHit ==>
              (RangeOf(Reverse(Order(cache)), r.start, r.stop) == RangeOf(Reverse(Order(db)), Int32(start), Int32(stop))
               <==> SameRanks(|db|, start, stop))
  {
    hide Order, Window, RangeOf, NoRepeats, Int32, Lowest, Highest, CheckCacheRevRange;
    RevRangeHitExact(dir, db, cache, start, stop);
    OrderHasNoRepeats(db);
    if RangeOf(Reverse(Order(db)), start, stop) != [] {
      SlicesEqualExact(Reverse(Order(db)), start, stop, Int32(start), Int32(stop));
    }
  }

  /** Indices of 32 bits are the same in both forms. */
  lemma {:induction false} NarrowIndicesSame(dbLen: nat, start: int, stop: int)
    requires IsInt32(start) && IsInt32(stop)
    ensures SameRanks(dbLen, start, stop)
  {
  }

  /** Two members, both cached, and a stop of 2 to the 32nd: the cache answers with two, the database with one. */
  lemma {:induction false} WideIndexReadBreaks(dir: Direction)
    ensures var z: ZSet := map["a" := 1.0, "b" := 2.0];
            var r := CheckCacheRange(dir, |z|, |z|, 0, 0x1_0000_0000);
            var v := CheckCacheRevRange(dir, |z|, |z|, 0, 0x1_0000_0000);
            && Window(dir, z, z)
            && r.status == RangeHit
            && RangeOf(Order(z), r.start, r.stop) != RangeOf(Order(z), Int32(0), Int32(0x1_0000_0000))
            && v.status == RangeHit
            && RangeOf(Reverse(Order(z)), v.start, v.stop) != RangeOf(Reverse(Order(z)), Int32(0), Int32(0x1_0000_0000))
  {
    hide Order, Window, RangeOf, Reverse;
    var z: ZSet := map["a" := 1.0, "b" := 2.0];
    assert |z| == 2 && Int32(0x1_0000_0000) == 0;
    WholeIsWindow(dir, z);
    RangeReadExact(dir, z, z, 0, 0x1_0000_0000);
    RevRangeReadExact(dir, z, z, 0, 0x1_0000_0000);
  }

  // Score ranges

  lemma {:induction false} MatchingConcat(s: seq<Elem>, t: seq<Elem>, r: ScoreRange)
    ensures Matching(s + t, r) == Matching(s, r) + Matching(t, r)
  {
    if s == [] {
      assert s + t == t;
    } else {
      assert (s + t)[1..] == s[1..] + t;
      MatchingConcat(s[1..], t, r);
    }
  }

  lemma {:induction false} MatchingNothing(s: seq<Elem>, r: ScoreRange)
    requires forall x | x in s :: !InRange(x.score, r)
    ensures Matching(s, r) == []
  {
    if s != [] { MatchingNothing(s[1..], r); }
  }

  /** When no score outside the window matches, the window's matches are all there are. */
  lemma {:induction false} MatchingInWindow(dir: Direction, db: ZSet, cache: ZSet, r: ScoreRange)
    requires Window(dir, db, cache)
    requires forall m | m in db && m !in cache :: !InRange(db[m], r)
    ensures Matching(Order(cache), r) == Matching(Order(db), r)
  {
    hide Order, Window, InRange, Matching, Rank;
    WindowOrder(dir, db, cache);
    var d := Order(db);
    var k := if dir == FromBegin then |cache| else |db| - |cache|;
    var rest := if dir == FromBegin then d[k..] else d[..k];
    forall x | x in rest
      ensures !InRange(x.score, r)
    {
      var i :| 0 <= i < |rest| && rest[i] == x;
      var j: nat := if dir == FromBegin then k + i else i;
      assert x == d[j];
      OrderRank(db, j);
      RankOutside(dir, db, cache, x.member, j);
    }
    MatchingNothing(rest, r);
    assert d == d[..k] + d[k..];
    MatchingConcat(d[..k], d[k..], r);
  }

  lemma {:induction false} RankOutside(dir: Direction, db: ZSet, cache: ZSet, m: string, j: nat)
    requires Window(dir, db, cache) && m in db && Rank(db, m) == j
    requires if dir == FromBegin then |cache| <= j else j < |db| - |cache|
    ensures m !in cache
  {
    if m in cache {
      WindowRank(dir, db, cache, m);
      RankBelowSize(cache, m);
    }
  }

  /**
   ZCOUNT and ZREVRANGEBYSCORE, which hand on the range as it was asked: on a hit the cached matches are the
   database's matches, in order, so that counts and limited results in both directions agree; on an error
   nothing matches.
   */
  lemma {:induction false} ScoreHitExact(cfg: Config, db: ZSet, cache: ZSet, cacheMin: real, cacheMax: real,
                                         min: real, max: real, leftClose: bool, rightClose: bool, offset: int, count: int)
    requires Window(cfg.dir, db, cache) && IsEdge(FromEnd, cache, cacheMin) && IsEdge(FromBegin, cache, cacheMax)
    ensures var st := CheckCacheRangeByScore(cfg, |cache|, cacheMin, cacheMax, min, max, leftClose, rightClose);
            var r := RangeFor(min, max, leftClose, rightClose);
            var c, d := Matching(Order(cache), r), Matching(Order(db), r);
            && (st == RangeHit ==>
                  |c| == |d| && Limited(c, offset, count) == Limited(d, offset, count)
                  && Limited(Reverse(c), offset, count) == Limited(Reverse(d), offset, count))
            && (st == RangeError ==> d == [])
  {
    hide Order, Matching, Limited, Reverse, Window;
    var st := CheckCacheRangeByScore(cfg, |cache|, cacheMin, cacheMax, min, max, leftClose, rightClose);
    var r := RangeFor(min, max, leftClose, rightClose);
    if st != RangeMiss {
      forall m | m in db && m !in cache
        ensures !InRange(db[m], r)
      {
        OutsideScore(cfg.dir, db, cache, if cfg.dir == FromBegin then cacheMax else cacheMin, m);
      }
      MatchingInWindow(cfg.dir, db, cache, r);
      if st == RangeError {
        NothingMatches(cache, r);
      }
    }
  }

  /** Two ranges with the same members among those cached. */
  predicate RangesAgree(cache: ZSet, r: ScoreRange, handed: ScoreRange) {
    forall m | m in cache :: InRange(cache[m], r) <==> InRange(cache[m], handed)
  }

  /** In any order, two ranges match the same if and only if they agree on every element. */
  lemma {:induction false} MatchingAgree(s: seq<Elem>, r: ScoreRange, handed: ScoreRange)
    requires NoRepeats(s)
    ensures Matching(s, r) == Matching(s, handed) <==> forall x | x in s :: InRange(x.score, r) <==> InRange(x.score, handed)
  {
    hide InRange;
    if Matching(s, r) == Matching(s, handed) {
      forall x | x in s
        ensures InRange(x.score, r) <==> InRange(x.score, handed)
      {
        MatchingHolds(s, r, x);
        MatchingHolds(s, handed, x);
      }
    }
    if forall x | x in s :: InRange(x.score, r) <==> InRange(x.score, handed) {
      MatchingSame(s, r, handed);
    }
  }

  lemma {:induction false} MatchingHolds(s: seq<Elem>, r: ScoreRange, x: Elem)
    requires x in s
    ensures x in Matching(s, r) <==> InRange(x.score, r)
  {
    MatchingOnly(s, r, x);
    if s[0] != x { MatchingHolds(s[1..], r, x); }
  }

  lemma {:induction false} MatchingOnly(s: seq<Elem>, r: ScoreRange, x: Elem)
    ensures x in Matching(s, r) ==> InRange(x.score, r)
  {
    if s != [] { MatchingOnly(s[1..], r, x); }
  }

  lemma {:induction false} MatchingSame(s: seq<Elem>, r: ScoreRange, handed: ScoreRange)
    requires forall x | x in s :: InRange(x.score, r) <==> InRange(x.score, handed)
    ensures Matching(s, r) == Matching(s, handed)
  {
    if s != [] { MatchingSame(s[1..], r, handed); }
  }

  /**
   ZRANGEBYSCORE as a command tests one range and hands the cache another, written anew from the two scores:
   on a hit the reply is the database's for every LIMIT if and only if the ranges agree on what is cached.
   */
  lemma {:induction false} ScoreReadExact(cfg: Config, db: ZSet, cache: ZSet, cacheMin: real, cacheMax: real,
                                          min: real, max: real, leftClose: bool, rightClose: bool, handed: ScoreRange)
    requires Window(cfg.dir, db, cache) && IsEdge(FromEnd, cache, cacheMin) && IsEdge(FromBegin, cache, cacheMax)
    requires CheckCacheRangeByScore(cfg, |cache|, cacheMin, cacheMax, min, max, leftClose, rightClose) == RangeHit
    ensures var r := RangeFor(min, max, leftClose, rightClose);
            var c, d := Matching(Order(cache), handed), Matching(Order(db), r);
            (forall offset, count :: Limited(c, offset, count) == Limited(d, offset, count)) <==> RangesAgree(cache, r, handed)
  {
    hide Order, Matching, Window, InRange, CheckCacheRangeByScore, IsEdge, Limited;
    var r := RangeFor(min, max, leftClose, rightClose);
    var c, d := Matching(Order(cache), handed), Matching(Order(db), r);
    ScoreHitExact(cfg, db, cache, cacheMin, cacheMax, min, max, leftClose, rightClose, 0, -1);
    NoLimit(Matching(Order(cache), r));
    NoLimit(c);
    NoLimit(d);
    MatchingCached(cache, r, handed);
  }

  lemma {:induction false} NoLimit(s: seq<Elem>)
    ensures Limited(s, 0, -1) == s
  {
  }

  lemma {:induction false} MatchingCached(cache: ZSet, r: ScoreRange, handed: ScoreRange)
    ensures Matching(Order(cache), r) == Matching(Order(cache), handed) <==> RangesAgree(cache, r, handed)
  {
    hide Order, Matching, InRange, Rank, NoRepeats;
    OrderHasNoRepeats(cache);
    MatchingAgree(Order(cache), r, handed);
    forall m | m in cache
      ensures At(cache, m) in Order(cache)
    {
      OrderAtRank(cache, m);
    }
    forall x | x in Order(cache)
      ensures x.member in cache && x == At(cache, x.member)
    {
      var i :| 0 <= i < |Order(cache)| && Order(cache)[i] == x;
      OrderRank(cache, i);
    }
  }

  /** Without its parentheses a range agrees with itself exactly if no cached score is on an open bound. */
  lemma {:induction false} ClosedRangeExact(cache: ZSet, min: real, max: real, leftClose: bool, rightClose: bool)
    ensures RangesAgree(cache, RangeFor(min, max, leftClose, rightClose), RangeFor(min, max, true, true))
            <==> (min <= max ==> forall m | m in cache :: (leftClose || cache[m] != min) && (rightClose || cache[m] != max))
  {
    var r, closed := RangeFor(min, max, leftClose, rightClose), RangeFor(min, max, true, true);
    forall m | m in cache
      ensures (InRange(cache[m], r) <==> InRange(cache[m], closed))
              <==> (min <= max ==> (leftClose || cache[m] != min) && (rightClose || cache[m] != max))
    {
    }
  }

  /** Three members, all cached in a window with room: asked for the scores above 1 up to 2, the cache adds the 1. */
  lemma {:induction false} OpenBoundReadBreaks(num: nat)
    requires num > 3
    ensures var cfg := Config(FromBegin, num, Rejected);
            var z: ZSet := map["a" := 1.0, "b" := 2.0, "c" := 3.0];
            && Window(FromBegin, z, z)
            && CheckCacheRangeByScore(cfg, |z|, 1.0, 3.0, 1.0, 2.0, false, true) == RangeHit
            && Matching(Order(z), RangeFor(1.0, 2.0, true, true)) != Matching(Order(z), RangeFor(1.0, 2.0, false, true))
  {
    hide Order, Window, Matching;
    var z: ZSet := map["a" := 1.0, "b" := 2.0, "c" := 3.0];
    assert |z| == 3;
    WholeIsWindow(FromBegin, z);
    MatchingCached(z, RangeFor(1.0, 2.0, false, true), RangeFor(1.0, 2.0, true, true));
    assert "a" in z && z["a"] == 1.0;
  }

  /** The bound of a range on the far side of the window, and whether it is open. */
  function FarBound(dir: Direction, min: real, max: real): real {
    if dir == FromBegin then max else min
  }

  predicate FarOpen(dir: Direction, leftClose: bool, rightClose: bool) {
    if dir == FromBegin then !rightClose else !leftClose
  }

  /**
   The score test, exactly. With e the far edge of the window and b the bound of the range on that side, it is
   a miss unless b is nearer than e, or is e and open in a cache with room; otherwise an error if b does not
   even reach the near end, and a hit if it does. When it is no miss, whatever set the cache is a window of has
   no match that is not cached.
   */
  lemma {:induction false} ScoreStatusExact(cfg: Config, cache: ZSet, cacheMin: real, cacheMax: real,
                                            min: real, max: real, leftClose: bool, rightClose: bool)
    requires IsEdge(FromEnd, cache, cacheMin) && IsEdge(FromBegin, cache, cacheMax)
    ensures var st := CheckCacheRangeByScore(cfg, |cache|, cacheMin, cacheMax, min, max, leftClose, rightClose);
            var b := FarBound(cfg.dir, min, max);
            && (st == RangeMiss <==>
                  exists e | IsEdge(cfg.dir, cache, e) ::
                    !Nearer(cfg.dir, b, e) && !(b == e && FarOpen(cfg.dir, leftClose, rightClose) && |cache| != cfg.num))
            && (st == RangeError <==> st != RangeMiss && forall m | m in cache :: Nearer(cfg.dir, b, cache[m]))
            && (st == RangeHit <==> st != RangeMiss && exists m | m in cache :: !Nearer(cfg.dir, b, cache[m]))
            && (st != RangeMiss ==> forall db | Window(cfg.dir, db, cache) ::
                  forall m | m in db && m !in cache :: !InRange(db[m], RangeFor(min, max, leftClose, rightClose)))
  {
    hide Window;
    var st := CheckCacheRangeByScore(cfg, |cache|, cacheMin, cacheMax, min, max, leftClose, rightClose);
    var e := if cfg.dir == FromBegin then cacheMax else cacheMin;
    var near := if cfg.dir == FromBegin then cacheMin else cacheMax;
    forall x | IsEdge(cfg.dir, cache, x)
      ensures x == e
    {
      EdgeUnique(cfg.dir, cache, x, e);
    }
    assert IsEdge(cfg.dir, cache, e);
    var n :| n in cache && cache[n] == near;
    if st != RangeMiss {
      forall db, m | Window(cfg.dir, db, cache) && m in db && m !in cache
        ensures !InRange(db[m], RangeFor(min, max, leftClose, rightClose))
      {
        OutsideScore(cfg.dir, db, cache, e, m);
      }
    }
  }

  /** A member that is not cached has a score no nearer than the edge. */
  lemma {:induction false} OutsideScore(dir: Direction, db: ZSet, cache: ZSet, e: real, m: string)
    requires Window(dir, db, cache) && IsEdge(dir, cache, e) && m in db && m !in cache
    ensures !Nearer(dir, db[m], e)
  {
    if Nearer(dir, db[m], e) { NearerIsCached(dir, db, cache, e, m); }
  }

  lemma {:induction false} NothingMatches(z: ZSet, r: ScoreRange)
    requires forall m | m in z :: !InRange(z[m], r)
    ensures Matching(Order(z), r) == []
  {
    forall x | x in Order(z)
      ensures !InRange(x.score, r)
    {
      var i :| 0 <= i < |Order(z)| && Order(z)[i] == x;
      OrderRank(z, i);
    }
    MatchingNothing(Order(z), r);
  }

  // Ranks and whole-set reads

  /** ZRANK from the cache: the cache's rank, shifted when the window is at the end. */
  function ZRank(dir: Direction, dbLen: nat, cache: ZSet, m: string): Option<int> {
    if m !in cache then None
    else Some(Rank(cache, m) + if dir == FromEnd then dbLen - |cache| else 0)
  }

  function RevRank(z: ZSet, m: string): int
    requires m in z
  {
    |z| - 1 - Rank(z, m)
  }

  function ZRevrank(dir: Direction, dbLen: nat, cache: ZSet, m: string): Option<int> {
    if m !in cache then None
    else Some(RevRank(cache, m) + if dir == FromBegin then dbLen - |cache| else 0)
  }

  /** A rank is answered from the cache exactly for cached members, and it is the database's. */
  lemma {:induction false} RankReadsExact(dir: Direction, db: ZSet, cache: ZSet, m: string)
    requires Window(dir, db, cache)
    ensures ZRank(dir, |db|, cache, m).Some? <==> m in cache
    ensures ZRevrank(dir, |db|, cache, m).Some? <==> m in cache
    ensures forall r :: ZRank(dir, |db|, cache, m) == Some(r) ==> m in db && r == Rank(db, m)
    ensures forall r :: ZRevrank(dir, |db|, cache, m) == Some(r) ==> m in db && r == |db| - 1 - Rank(db, m)
  {
    if m in cache {
      WindowRank(dir, db, cache, m);
    }
  }

  /** The size test passes exactly if the window is the whole of a set that exists. */
  lemma {:induction false} EqualSizesMeanEqual(dir: Direction, db: ZSet, cache: ZSet)
    requires Window(dir, db, cache)
    ensures CacheSizeEqsDB(|db|, |cache|) <==> cache == db && cache != map[]
  {
    WindowSize(dir, db, cache);
    if |db| == |cache| {
      assert db.Keys - cache.Keys == {};
      assert db.Keys == cache.Keys;
    }
  }

  // Lexicographic reads

  /** The members in a range in their own order: with every score alike, the order is that of the members. */
  ghost function LexOrder(z: ZSet, r: LexRange): seq<Elem> {
    Order(map m | m in z && InLex(m, r) :: 0.0)
  }

  /**
   ZREVRANGEBYLEX as a command: the cached reply takes the count from the front and never looks at the offset,
   so that it is the database's if and only if there is no offset, nothing is asked for, or nothing matches.
   */
  lemma {:induction false} RevLexReadExact(dir: Direction, db: ZSet, cache: ZSet, r: LexRange, offset: int, count: int)
    requires Window(dir, db, cache) && CacheSizeEqsDB(|db|, |cache|)
    ensures Limited(Reverse(LexOrder(cache, r)), 0, count) == Limited(Reverse(LexOrder(db, r)), offset, count)
            <==> offset == 0 || count == 0 || (forall m | m in db :: !InLex(m, r))
  {
    hide Order, Window, InLex, Limited, NoRepeats, Reverse;
    EqualSizesMeanEqual(dir, db, cache);
    var z: ZSet := map m | m in db && InLex(m, r) :: 0.0;
    OrderHasNoRepeats(z);
    OffsetMatters(Reverse(Order(z)), offset, count);
    assert |z| == 0 <==> z == map[];
    assert z == map[] <==> forall m | m in db :: !InLex(m, r) by {
      forall m | m in db
        ensures m in z <==> InLex(m, r)
      {
      }
    }
  }

  lemma {:induction false} OffsetMatters(s: seq<Elem>, offset: int, count: int)
    requires NoRepeats(s)
    ensures Limited(s, 0, count) == Limited(s, offset, count) <==> offset == 0 || count == 0 || s == []
  {
    if offset != 0 && count != 0 && s != [] {
      assert Limited(s, 0, count)[0] == s[0];
      if 0 < offset < |s| {
        assert Limited(s, offset, count)[0] == s[offset];
      }
    }
  }

  /** Two members, and the second from the end asked for: the cache answers with the last. */
  lemma {:induction false} LexOffsetReadBreaks(dir: Direction)
    ensures var z: ZSet := map["a" := 1.0, "b" := 1.0];
            var r := LexRange(LexInfinite, LexInfinite);
            && Window(dir, z, z) && CacheSizeEqsDB(|z|, |z|)
            && Limited(Reverse(LexOrder(z, r)), 0, 1) != Limited(Reverse(LexOrder(z, r)), 1, 1)
  {
    hide Window, LexOrder, Reverse, Limited;
    var z: ZSet := map["a" := 1.0, "b" := 1.0];
    var r := LexRange(LexInfinite, LexInfinite);
    WholeIsWindow(dir, z);
    assert |z| == 2 && "a" in z && InLex("a", r);
    RevLexReadExact(dir, z, z, r, 1, 1);
  }
}
