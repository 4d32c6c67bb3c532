/** Sorted sets: members with scores, ordered by score and then by member bytes. */
module ZSet {
  /** A sorted set; the empty one is a key that does not exist. */
  type ZSet = map<string, real>

  datatype Elem = Elem(score: real, member: string)

  /** Byte order on members. */
  predicate LexLess(a: string, b: string) {
    b != [] && (a == [] || a[0] < b[0] || (a[0] == b[0] && LexLess(a[1..], b[1..])))
  }

  predicate Before(x: Elem, y: Elem) {
    x.score < y.score || (x.score == y.score && LexLess(x.member, y.member))
  }

  function At(z: ZSet, m: string): Elem
    requires m in z
  {
    Elem(z[m], m)
  }

  lemma {:induction false} LexIrreflexive(a: string)
    ensures !LexLess(a, a)
  {
    if a != [] { LexIrreflexive(a[1..]); }
  }

  lemma {:induction false} LexTransitive(a: string, b: string, c: string)
    requires LexLess(a, b) && LexLess(b, c)
    ensures LexLess(a, c)
  {
    if a != [] && a[0] == b[0] && b[0] == c[0] { LexTransitive(a[1..], b[1..], c[1..]); }
  }

  lemma {:induction false} LexTotal(a: string, b: string)
    ensures a == b || LexLess(a, b) || LexLess(b, a)
  {
    if a != [] && b != [] && a[0] == b[0] {
      LexTotal(a[1..], b[1..]);
      if a[1..] == b[1..] {
        assert a == [a[0]] + a[1..] && b == [b[0]] + b[1..];
      }
    }
  }

  lemma {:induction false} BeforeTransitive(x: Elem, y: Elem, z: Elem)
    requires Before(x, y) && Before(y, z)
    ensures Before(x, z)
  {
    if x.score == y.score == z.score { LexTransitive(x.member, y.member, z.member); }
  }

  lemma {:induction false} BeforeTotal(x: Elem, y: Elem)
    ensures x == y || Before(x, y) || Before(y, x)
    ensures !(Before(x, y) && Before(y, x)) && !Before(x, x)
  {
    LexTotal(x.member, y.member);
    LexIrreflexive(x.member);
    if Before(x, y) && Before(y, x) { BeforeTransitive(x, y, x); }
  }

  // Ranks

  /** The members that come before m. */
  function Lower(z: ZSet, m: string): set<string>
    requires m in z
  {
    set k | k in z && Before(At(z, k), At(z, m))
  }

  function Rank(z: ZSet, m: string): nat
    requires m in z
  {
    |Lower(z, m)|
  }

  /** Ranks follow the order. */
  lemma {:induction false} RankMonotone(z: ZSet, k: string, m: string)
    requires k in z && m in z && Before(At(z, k), At(z, m))
    ensures Rank(z, k) < Rank(z, m)
  {
    forall j | j in Lower(z, k)
      ensures j in Lower(z, m)
    {
      BeforeTransitive(At(z, j), At(z, k), At(z, m));
    }
    BeforeTotal(At(z, k), At(z, k));
    assert k in Lower(z, m) && k !in Lower(z, k);
    SubsetSmaller(Lower(z, k), Lower(z, m), k);
  }

  lemma {:induction false} SubsetSmaller(a: set<string>, b: set<string>, k: string)
    requires a <= b && k in b && k !in a
    ensures |a| < |b|
  {
    SubsetAtMost(a, b - {k});
  }

  lemma {:induction false} SubsetAtMost(a: set<string>, b: set<string>)
    requires a <= b
    ensures |a| <= |b|
  {
    assert b == a + (b - a);
  }

  lemma {:induction false} RankBelowSize(z: ZSet, m: string)
    requires m in z
    ensures Rank(z, m) < |z|
  {
    BeforeTotal(At(z, m), At(z, m));
    SubsetSmaller(Lower(z, m), z.Keys, m);
  }

  /** Different members have different ranks, ordered as the members are. */
  lemma {:induction false} RankInjective(z: ZSet, k: string, m: string)
    requires k in z && m in z
    ensures Rank(z, k) == Rank(z, m) ==> k == m
    ensures Rank(z, k) < Rank(z, m) ==> Before(At(z, k), At(z, m))
  {
    BeforeTotal(At(z, k), At(z, m));
    if k != m {
      if Before(At(z, k), At(z, m)) { RankMonotone(z, k, m); } else { RankMonotone(z, m, k); }
    }
  }

  // The set as an ordered sequence

  /** The first member in the order. */
  ghost function First(z: ZSet): (m: string)
    requires z != map[]
    ensures m in z && forall k | k in z && k != m :: Before(At(z, m), At(z, k))
    decreases |z|
  {
    var x :| x in z;
    var rest := z - {x};
    if rest == map[] then
      assert forall k | k in z :: k == x || k in rest;
      x
    else
      var y := First(rest);
      assert forall k | k in z && k != x :: k in rest && At(rest, k) == At(z, k);
      FirstOfTwo(z, x, y);
      if Before(At(z, x), At(z, y)) then x else y
  }

  lemma {:induction false} FirstOfTwo(z: ZSet, x: string, y: string)
    requires x in z && y in z && x != y
    requires forall k | k in z && k != x && k != y :: Before(At(z, y), At(z, k))
    ensures var m := if Before(At(z, x), At(z, y)) then x else y;
            forall k | k in z && k != m :: Before(At(z, m), At(z, k))
  {
    BeforeTotal(At(z, x), At(z, y));
    forall k | k in z && k != x && k != y
      ensures Before(At(z, x), At(z, y)) ==> Before(At(z, x), At(z, k))
    {
      if Before(At(z, x), At(z, y)) { BeforeTransitive(At(z, x), At(z, y), At(z, k)); }
    }
  }

  ghost function Order(z: ZSet): (s: seq<Elem>)
    ensures |s| == |z|
    decreases |z|
  {
    if z == map[] then []
    else
      var m := First(z);
      assert |z.Keys - {m}| == |z.Keys| - 1;
      assert (z - {m}).Keys == z.Keys - {m};
      [At(z, m)] + Order(z - {m})
  }

  /** Position i of the sequence holds the member of rank i. */
  lemma {:induction false} OrderRank(z: ZSet, i: nat)
    requires i < |z|
    ensures var x := Order(z)[i]; x.member in z && x == At(z, x.member) && Rank(z, x.member) == i
    decreases |z|
  {
    var m := First(z);
    var rest := z - {m};
    assert rest.Keys == z.Keys - {m};
    if i == 0 {
      FirstHasRankZero(z, m);
    } else {
      OrderRank(rest, i - 1);
      var x := Order(rest)[i - 1].member;
      RankWithoutFirst(z, m, x);
    }
  }

  lemma {:induction false} FirstHasRankZero(z: ZSet, m: string)
    requires m in z && forall k | k in z && k != m :: Before(At(z, m), At(z, k))
    ensures Rank(z, m) == 0
  {
    forall k | k in z
      ensures k !in Lower(z, m)
    {
      BeforeTotal(At(z, k), At(z, m));
    }
    assert Lower(z, m) == {};
  }

  lemma {:induction false} RankWithoutFirst(z: ZSet, m: string, x: string)
    requires m in z && x in z && x != m && forall k | k in z && k != m :: Before(At(z, m), At(z, k))
    ensures Rank(z, x) == Rank(z - {m}, x) + 1
  {
    assert Lower(z, x) == Lower(z - {m}, x) + {m};
  }

  /** The member of rank i, given the member. */
  lemma {:induction false} OrderAtRank(z: ZSet, m: string)
    requires m in z
    ensures Rank(z, m) < |z| && Order(z)[Rank(z, m)] == At(z, m)
  {
    RankBelowSize(z, m);
    OrderRank(z, Rank(z, m));
    RankInjective(z, Order(z)[Rank(z, m)].member, m);
  }
}
