/**
 A cached window of a sorted set: the part of it from one end of the order up to some member. Which
 changes, made to the set and to the window, leave a window.
 */
module ZSetWindow {
  import opened ZSet

  /** CACHE_START_FROM_BEGIN caches the lowest members, CACHE_START_FROM_END the highest. */
  datatype Direction = FromBegin | FromEnd

  /** x is nearer than y to the end of the order that is cached. */
  predicate Ahead(dir: Direction, x: Elem, y: Elem) {
    if dir == FromBegin then Before(x, y) else Before(y, x)
  }

  predicate Subset(cache: ZSet, db: ZSet) {
    forall m | m in cache :: m in db && db[m] == cache[m]
  }

  /** With a member every member ahead of it is cached. */
  predicate Closed(dir: Direction, db: ZSet, cache: ZSet) {
    forall m, k | m in cache && m in db && k in db && Ahead(dir, At(db, k), At(db, m)) :: k in cache
  }

  predicate Window(dir: Direction, db: ZSet, cache: ZSet) {
    Subset(cache, db) && Closed(dir, db, cache)
  }

  // Ranks in a window

  /** A window from the begin keeps ranks; one from the end shifts them by what is not cached. */
  lemma {:induction false} WindowRank(dir: Direction, db: ZSet, cache: ZSet, m: string)
    requires Window(dir, db, cache) && m in cache
    ensures m in db && db[m] == cache[m] && |cache| <= |db|
    ensures Rank(db, m) == Rank(cache, m) + (if dir == FromBegin then 0 else |db| - |cache|)
  {
    WindowSize(dir, db, cache);
    if dir == FromBegin {
      assert Lower(db, m) == Lower(cache, m);
    } else {
      LowerSplits(db, cache, m);
      hide Lower, Window;
      assert Lower(cache, m) !! db.Keys - cache.Keys;
    }
  }

  /** Below a member of a window from the end are its lower cached members, and all that is not cached. */
  lemma {:induction false} LowerSplits(db: ZSet, cache: ZSet, m: string)
    requires Window(FromEnd, db, cache) && m in cache
    ensures m in db && Lower(db, m) == Lower(cache, m) + (db.Keys - cache.Keys) && Lower(cache, m) <= cache.Keys
  {
    forall k | k in db.Keys - cache.Keys
      ensures k in Lower(db, m)
    {
      BeforeTotal(At(db, k), At(db, m));
    }
  }

  lemma {:induction false} WindowNoLarger(dir: Direction, db: ZSet, cache: ZSet)
    requires Window(dir, db, cache)
    ensures |cache| <= |db|
  {
    WindowSize(dir, db, cache);
  }

  lemma {:induction false} WindowSize(dir: Direction, db: ZSet, cache: ZSet)
    requires Window(dir, db, cache)
    ensures cache.Keys <= db.Keys && |cache| <= |db|
    ensures |db.Keys - cache.Keys| == |db| - |cache|
  {
    assert db.Keys == cache.Keys + (db.Keys - cache.Keys);
  }

  /** As sequences, the window is the first or the last part of the set. */
  lemma {:induction false} WindowOrder(dir: Direction, db: ZSet, cache: ZSet)
    requires Window(dir, db, cache)
    ensures |cache| <= |db|
    ensures Order(cache) == if dir == FromBegin then Order(db)[..|cache|] else Order(db)[|db| - |cache|..]
  {
    hide Order, Window, Rank;
    WindowSize(dir, db, cache);
    var shift := if dir == FromBegin then 0 else |db| - |cache|;
    forall i: nat | i < |cache|
      ensures Order(cache)[i] == Order(db)[i + shift]
    {
      OrderRank(cache, i);
      var m := Order(cache)[i].member;
      WindowRank(dir, db, cache, m);
      OrderAtRank(db, m);
    }
  }

  // Removals

  function Restrict(z: ZSet, keep: set<string>): ZSet {
    map m | m in z && m in keep :: z[m]
  }

  /** Taking the same members away from both leaves a window. */
  lemma {:induction false} RestrictKeeps(dir: Direction, db: ZSet, cache: ZSet, keep: set<string>)
    requires Window(dir, db, cache)
    ensures Window(dir, Restrict(db, keep), Restrict(cache, keep))
  {
  }

  /** A window of a window is a window. */
  lemma {:induction false} WindowTransitive(dir: Direction, db: ZSet, mid: ZSet, cache: ZSet)
    requires Window(dir, db, mid) && Window(dir, mid, cache)
    ensures Window(dir, db, cache)
  {
  }

  lemma {:induction false} WholeIsWindow(dir: Direction, db: ZSet)
    ensures Window(dir, db, db) && Window(dir, db, map[])
  {
  }

  // The sorted-set primitives

  datatype Bound = Infinite | Incl(v: real) | Excl(v: real)

  datatype ScoreRange = ScoreRange(lo: Bound, hi: Bound)

  predicate AboveLo(b: Bound, s: real) {
    match b
    case Infinite => true
    case Incl(v) => v <= s
    case Excl(v) => v < s
  }

  predicate BelowHi(b: Bound, s: real) {
    match b
    case Infinite => true
    case Incl(v) => s <= v
    case Excl(v) => s < v
  }

  predicate InRange(s: real, r: ScoreRange) {
    AboveLo(r.lo, s) && BelowHi(r.hi, s)
  }

  function RemScore(z: ZSet, r: ScoreRange): ZSet {
    map m | m in z && !InRange(z[m], r) :: z[m]
  }

  /** A rank counted from the end when negative, as Redis counts. */
  function FromStart(len: nat, i: int): int {
    if i >= 0 then i else len + i
  }

  function Lowest(len: nat, start: int): nat {
    var i := FromStart(len, start);
    if i <= 0 then 0 else i
  }

  function Highest(len: nat, stop: int): int {
    var i := FromStart(len, stop);
    if i >= len then len - 1 else i
  }

  /** Without the members whose rank is from start to stop. */
  function RemRank(z: ZSet, start: int, stop: int): ZSet {
    map m | m in z && !(Lowest(|z|, start) <= Rank(z, m) <= Highest(|z|, stop)) :: z[m]
  }

  /** Only the members whose rank is from start to stop. */
  function TakeRank(z: ZSet, start: int, stop: int): ZSet {
    map m | m in z && Lowest(|z|, start) <= Rank(z, m) <= Highest(|z|, stop) :: z[m]
  }

  function PopMin(z: ZSet, count: nat): ZSet {
    map m | m in z && Rank(z, m) >= count :: z[m]
  }

  function PopMax(z: ZSet, count: nat): ZSet {
    map m | m in z && Rank(z, m) + count < |z| :: z[m]
  }

  lemma {:induction false} RemoveMembersKeeps(dir: Direction, db: ZSet, cache: ZSet, members: set<string>)
    requires Window(dir, db, cache)
    ensures Window(dir, db - members, cache - members)
  {
    RestrictKeeps(dir, db, cache, db.Keys - members);
    assert Restrict(db, db.Keys - members) == db - members;
    assert Restrict(cache, db.Keys - members) == cache - members;
  }

  /** All cached members that are lost are gone, and none gone for nothing is ahead of one that stays. */
  predicate RemovalsAgree(dir: Direction, cache: ZSet, lost: set<string>, gone: set<string>) {
    && (forall m | m in cache && m in lost :: m in gone)
    && (forall k, m | k in cache && k in gone && k !in lost && m in cache && m !in gone ::
          !Ahead(dir, At(cache, k), At(cache, m)))
  }

  /** Whatever members are lost to the database and gone from the cache, the window survives exactly if they agree. */
  lemma {:induction false} RemovalsExact(dir: Direction, db: ZSet, cache: ZSet, lost: set<string>, gone: set<string>)
    requires Window(dir, db, cache)
    ensures Window(dir, db - lost, cache - gone) <==> RemovalsAgree(dir, cache, lost, gone)
  {
    hide Before;
    var db', c := db - lost, cache - gone;
    if RemovalsAgree(dir, cache, lost, gone) {
      forall m, k | m in c && k in db' && m in db' && Ahead(dir, At(db', k), At(db', m))
        ensures k in c
      {
        assert At(db', k) == At(db, k) && At(db', m) == At(db, m) && k in cache;
        assert At(cache, k) == At(db, k) && At(cache, m) == At(db, m);
      }
    }
    if Window(dir, db', c) {
      forall m | m in cache && m in lost
        ensures m in gone
      {
        assert m !in db' && m !in c;
      }
      forall k, m | k in cache && k in gone && k !in lost && m in cache && m !in gone
        ensures !Ahead(dir, At(cache, k), At(cache, m))
      {
        assert m in c && m in db' && k in db' && k !in c;
        assert At(db', k) == At(cache, k) && At(db', m) == At(cache, m);
      }
    }
  }

  /** The members whose score is in a range. */
  function InScores(z: ZSet, r: ScoreRange): set<string> {
    set m | m in z && InRange(z[m], r)
  }

  /** Without the members whose shifted rank is from lo to hi. */
  function WithoutRanks(z: ZSet, shift: nat, lo: int, hi: int): ZSet {
    map m | m in z && !(lo <= Rank(z, m) + shift <= hi) :: z[m]
  }

  /** Both ends of a window may be popped together with the set. */
  lemma {:induction false} PopMinKeeps(dir: Direction, db: ZSet, cache: ZSet, count: nat)
    requires Window(dir, db, cache)
    ensures Window(dir, PopMin(db, count), PopMin(cache, count))
  {
    forall m | m in cache
      ensures m in db && Rank(db, m) == Rank(cache, m) + (if dir == FromBegin then 0 else |db| - |cache|)
    {
      WindowRank(dir, db, cache, m);
    }
    WindowSize(dir, db, cache);
    var db', cache' := PopMin(db, count), PopMin(cache, count);
    forall m, k | m in cache' && k in db' && Ahead(dir, At(db', k), At(db', m))
      ensures k in cache'
    {
      assert k in cache;
      if dir == FromEnd { RankMonotone(cache, m, k); }
    }
  }

  lemma {:induction false} PopMaxKeeps(dir: Direction, db: ZSet, cache: ZSet, count: nat)
    requires Window(dir, db, cache)
    ensures Window(dir, PopMax(db, count), PopMax(cache, count))
  {
    forall m | m in cache
      ensures m in db && Rank(db, m) == Rank(cache, m) + (if dir == FromBegin then 0 else |db| - |cache|)
    {
      WindowRank(dir, db, cache, m);
    }
    WindowSize(dir, db, cache);
    var db', cache' := PopMax(db, count), PopMax(cache, count);
    forall m, k | m in cache' && k in db' && Ahead(dir, At(db', k), At(db', m))
      ensures k in cache'
    {
      assert k in cache;
      if dir == FromBegin { RankMonotone(cache, k, m); }
    }
  }

  /** A window that holds exactly the members of rank n and above, or below n, has the size that this gives. */
  lemma {:induction false} RankedSize(dir: Direction, z: ZSet, c: ZSet, n: nat)
    requires Window(dir, z, c) && n <= |z|
    requires forall m | m in z :: m in c <==> if dir == FromBegin then Rank(z, m) < n else n <= Rank(z, m)
    ensures |c| == if dir == FromBegin then n else |z| - n
  {
    hide Window, Rank, Order;
    WindowNoLarger(dir, z, c);
    var size := if dir == FromBegin then n else |z| - n;
    if |c| > size {
      var i := if dir == FromBegin then |c| - 1 else 0;
      OrderRank(c, i);
      WindowRank(dir, z, c, Order(c)[i].member);
    } else if |c| < size {
      var i := if dir == FromBegin then |c| else |z| - |c| - 1;
      OrderRank(z, i);
      var m := Order(z)[i].member;
      WindowRank(dir, z, c, m);
      RankBelowSize(c, m);
    }
  }

  /** Popping takes the first members of the order, or the last, as many as there are. */
  lemma {:induction false} PopMinOrder(z: ZSet, n: nat)
    ensures Order(PopMin(z, n)) == Order(z)[if n <= |z| then n else |z|..]
  {
    hide Order, Rank, Before;
    var k, c := if n <= |z| then n else |z|, PopMin(z, n);
    forall m | m in z
      ensures Rank(z, m) < |z|
    {
      RankBelowSize(z, m);
    }
    forall m, x | m in c && x in z && Before(At(z, m), At(z, x))
      ensures x in c
    {
      RankMonotone(z, m, x);
    }
    assert Window(FromEnd, z, c);
    RankedSize(FromEnd, z, c, k);
    WindowOrder(FromEnd, z, c);
  }

  lemma {:induction false} PopMaxOrder(z: ZSet, n: nat)
    ensures Order(PopMax(z, n)) == Order(z)[..if n <= |z| then |z| - n else 0]
  {
    hide Order, Rank, Before;
    var k, c := if n <= |z| then |z| - n else 0, PopMax(z, n);
    forall m, x | m in c && x in z && Before(At(z, x), At(z, m))
      ensures x in c
    {
      RankMonotone(z, x, m);
    }
    assert Window(FromBegin, z, c);
    RankedSize(FromBegin, z, c, k);
    WindowOrder(FromBegin, z, c);
  }

  /** The elements of a sequence whose members are kept. */
  function Kept(s: seq<Elem>, keep: set<string>): seq<Elem> {
    if s == [] then [] else (if s[0].member in keep then [s[0]] else []) + Kept(s[1..], keep)
  }

  lemma {:induction false} OrderUnfolds(z: ZSet)
    requires z != map[]
    ensures var m := First(z); Order(z) == [At(z, m)] + Order(z - {m}) && |z - {m}| < |z|
  {
    var m := First(z);
    assert (z - {m}).Keys == z.Keys - {m};
  }

  /** A part of a set has the order of the set. */
  lemma {:induction false} RestrictOrder(z: ZSet, keep: set<string>)
    ensures Order(Restrict(z, keep)) == Kept(Order(z), keep)
    decreases |z|
  {
    hide Before, Order, First;
    var c := Restrict(z, keep);
    if z == map[] {
      assert c == map[] && Order(c) == [] && Order(z) == [];
    } else {
      var m := First(z);
      var rest := z - {m};
      OrderUnfolds(z);
      RestrictOrder(rest, keep);
      assert ([At(z, m)] + Order(rest))[1..] == Order(rest);
      if m in keep {
        FirstIsUnique(c, m);
        OrderUnfolds(c);
        assert c - {m} == Restrict(rest, keep);
      } else {
        assert c == Restrict(rest, keep);
      }
    }
  }

  lemma {:induction false} FirstIsUnique(z: ZSet, m: string)
    requires m in z && forall k | k in z && k != m :: Before(At(z, m), At(z, k))
    ensures First(z) == m
  {
    BeforeTotal(At(z, m), At(z, First(z)));
  }

  lemma {:induction false} KeptConcat(s: seq<Elem>, t: seq<Elem>, keep: set<string>)
    ensures Kept(s + t, keep) == Kept(s, keep) + Kept(t, keep)
  {
    if s == [] {
      assert s + t == t;
    } else {
      assert (s + t)[1..] == s[1..] + t;
      KeptConcat(s[1..], t, keep);
    }
  }

  lemma {:induction false} KeptAll(s: seq<Elem>, keep: set<string>)
    requires forall x | x in s :: x.member in keep
    ensures Kept(s, keep) == s
  {
    if s != [] { KeptAll(s[1..], keep); }
  }

  lemma {:induction false} KeptNone(s: seq<Elem>, keep: set<string>)
    requires forall x | x in s :: x.member !in keep
    ensures Kept(s, keep) == []
  {
    if s != [] { KeptNone(s[1..], keep); }
  }

  /** Removing ranks cuts them out of the order. */
  lemma {:induction false} RemRankOrder(z: ZSet, start: int, stop: int)
    ensures var s, lo, hi := Order(z), Lowest(|z|, start), Highest(|z|, stop);
            Order(RemRank(z, start, stop)) == if lo > hi then s else s[..lo] + s[hi + 1..]
  {
    hide Order, Rank, Kept;
    var s, lo, hi := Order(z), Lowest(|z|, start), Highest(|z|, stop);
    var c := RemRank(z, start, stop);
    forall i: nat | i < |s|
      ensures s[i].member in c.Keys <==> !(lo <= i <= hi)
    {
      OrderRank(z, i);
    }
    assert c == Restrict(z, c.Keys);
    RestrictOrder(z, c.Keys);
    if lo > hi {
      KeptAll(s, c.Keys);
    } else {
      var a, b, d := s[..lo], s[lo..hi + 1], s[hi + 1..];
      assert s == a + b + d;
      KeptConcat(a + b, d, c.Keys);
      KeptConcat(a, b, c.Keys);
      KeptAll(a, c.Keys);
      KeptNone(b, c.Keys);
      KeptAll(d, c.Keys);
    }
  }

  /** The n members at the cached end. */
  function Trim(dir: Direction, z: ZSet, n: nat): ZSet {
    if |z| <= n then z
    else if dir == FromBegin then RemRank(z, n - |z|, -1)
    else RemRank(z, 0, |z| - n - 1)
  }

  /** A trimmed set is its own end, as many members of it as there may be. */
  lemma {:induction false} TrimIsWindow(dir: Direction, z: ZSet, n: nat)
    ensures Window(dir, z, Trim(dir, z, n)) && |Trim(dir, z, n)| == if |z| <= n then |z| else n
  {
    if |z| <= n {
      WholeIsWindow(dir, z);
    } else {
      var t := Trim(dir, z, n);
      forall m | m in z
        ensures Rank(z, m) < |z|
        ensures m in t <==> if dir == FromBegin then Rank(z, m) < n else |z| - n <= Rank(z, m)
      {
        RankBelowSize(z, m);
      }
      forall m, k | m in t && k in z && Ahead(dir, At(z, k), At(z, m))
        ensures k in t
      {
        if dir == FromBegin { RankMonotone(z, k, m); } else { RankMonotone(z, m, k); }
      }
      RankedSize(dir, z, t, if dir == FromBegin then n else |z| - n);
    }
  }
}
