/**
 The cell of a point: encoding a position into a geohash and decoding the hash into a rectangle, over exact
 reals, and where the rectangles of neighbouring cells lie.
 */
module GeohashArea {
  import opened Geohash
  import opened Wrappers

  // Words and numbers, bit by bit

  function Pow2(k: bv8): (p: nat)
    ensures p > 0
    decreases k
  {
    if k == 0 then 1 else 2 * Pow2(k - 1)
  }

  function Bit(w: bv32): nat {
    if w & 1 == 1 then 1 else 0
  }

  function Half(w: bv32): bv32 {
    w >> 1
  }

  function Double(w: bv32, one: bool): bv32 {
    (w << 1) | (if one then 1 else 0)
  }

  /** The number that the k low bits of a word stand for. */
  function Number(w: bv32, k: bv8): nat
    decreases k
  {
    if k == 0 then 0 else Bit(w) + 2 * Number(Half(w), k - 1)
  }

  /** The word whose k low bits stand for a number modulo 2^k. */
  function Word(n: nat, k: bv8): bv32
    decreases k
  {
    if k == 0 then 0 else Double(Word(n / 2, k - 1), n % 2 == 1)
  }

  /** The largest word of k bits. */
  function Ones(k: bv8): bv32
    requires k <= 32
  {
    0xFFFFFFFF >> (32 - k)
  }

  predicate Narrow(w: bv32, k: bv8)
    requires k <= 32
  {
    w <= Ones(k)
  }

  lemma {:induction false} DoubleHalves(w: bv32, one: bool, k: bv8)
    requires 0 < k <= 32 && Narrow(w, k - 1)
    ensures Half(Double(w, one)) == w && Bit(Double(w, one)) == (if one then 1 else 0)
    ensures Narrow(Double(w, one), k)
  {
  }

  lemma {:induction false} WordIsNarrow(n: nat, k: bv8)
    requires k <= 32
    ensures Narrow(Word(n, k), k)
    decreases k
  {
    hide Double, Narrow;
    if k == 0 {
      NoBits();
    } else {
      WordIsNarrow(n / 2, k - 1);
      DoubleHalves(Word(n / 2, k - 1), n % 2 == 1, k);
    }
  }

  lemma {:induction false} NoBits()
    ensures Narrow(0, 0)
  {
  }

  lemma {:induction false} HalvedRemainder(n: nat, p: nat)
    requires p > 0
    ensures n % (2 * p) == n % 2 + 2 * (n / 2 % p)
  {
    var q, r := n / 2 / p, n / 2 % p;
    assert n == (2 * p) * q + (n % 2 + 2 * r);
    RemainderIs(n, 2 * p, q, n % 2 + 2 * r);
  }

  lemma {:induction false} SmallMultiple(m: int, e: int)
    requires -m < m * e < m
    ensures e == 0
  {
  }

  lemma {:induction false} RemainderIs(n: nat, m: nat, q: nat, r: nat)
    requires r < m && n == m * q + r
    ensures n % m == r
  {
    var d := n / m;
    assert n == m * d + n % m;
    assert m * (q - d) == m * q - m * d;
    SmallMultiple(m, q - d);
  }

  /** The word of a number stands for the number modulo 2^k. */
  lemma {:induction false} NumberOfWord(n: nat, k: bv8)
    requires k <= 32
    ensures Number(Word(n, k), k) == n % Pow2(k)
    decreases k
  {
    hide Double, Narrow, Half, Bit;
    if k != 0 {
      WordIsNarrow(n / 2, k - 1);
      NumberOfWord(n / 2, k - 1);
      DoubleHalves(Word(n / 2, k - 1), n % 2 == 1, k);
      HalvedRemainder(n, Pow2(k - 1));
    }
  }

  lemma {:induction false} NumberIsBounded(w: bv32, k: bv8)
    ensures Number(w, k) < Pow2(k)
    decreases k
  {
    hide Half, Bit;
    if k != 0 {
      NumberIsBounded(Half(w), k - 1);
      BitIsBounded(w);
    }
  }

  lemma {:induction false} BitIsBounded(w: bv32)
    ensures Bit(w) <= 1
  {
  }

  // The next word

  function Succ(w: bv32): bv32 {
    w + 1
  }

  function Pred(w: bv32): bv32 {
    w - 1
  }

  function Both(v: bv32, w: bv32): bv32 {
    v & w
  }

  function NextWord(w: bv32, step: bv8, up: bool): bv32
    requires StepOk(step)
  {
    Both(if up then Succ(w) else Pred(w), Ones(step))
  }

  lemma {:induction false} NarrowHalves(w: bv32, k: bv8)
    requires 0 < k <= 32 && Narrow(w, k)
    ensures Narrow(Half(w), k - 1)
    ensures Half(Ones(k)) == Ones(k - 1) && Bit(Ones(k)) == 1
  {
  }

  lemma {:induction false} EvenSuccessor(w: bv32)
    requires Bit(w) == 0
    ensures Half(Succ(w)) == Half(w) && Bit(Succ(w)) == 1
  {
  }

  lemma {:induction false} OddSuccessor(w: bv32)
    requires Bit(w) == 1 && w != 0xFFFFFFFF
    ensures Half(Succ(w)) == Succ(Half(w)) && Bit(Succ(w)) == 0
  {
  }

  lemma {:induction false} BelowOnes(w: bv32, k: bv8)
    requires 0 < k <= 32 && Narrow(w, k) && w != Ones(k)
    ensures w != 0xFFFFFFFF && Narrow(Succ(w), k)
    ensures Bit(w) == 1 ==> Half(w) != Ones(k - 1)
  {
  }

  lemma {:induction false} NumberOfSuccessor(w: bv32, k: bv8)
    requires k <= 32 && Narrow(w, k) && w != Ones(k)
    ensures Number(Succ(w), k) == Number(w, k) + 1
    decreases k
  {
    hide Succ, Half, Narrow, Ones;
    if k == 0 {
      OnlyZero(w);
    } else {
      BelowOnes(w, k);
      NarrowHalves(w, k);
      if Bit(w) == 0 {
        EvenSuccessor(w);
      } else {
        OddSuccessor(w);
        NumberOfSuccessor(Half(w), k - 1);
      }
    }
  }

  lemma {:induction false} OnlyZero(w: bv32)
    requires Narrow(w, 0)
    ensures w == Ones(0) && w == 0
  {
  }

  lemma {:induction false} NumberOfZero(k: bv8)
    ensures Number(0, k) == 0
    decreases k
  {
    if k != 0 {
      NumberOfZero(k - 1);
    }
  }

  /** A word of j bits, read as k bits, stands for a number below 2^j; the largest one for the one before 2^j. */
  lemma {:induction false} NarrowNumbers(w: bv32, j: bv8, k: bv8)
    requires j <= k <= 32 && Narrow(w, j)
    ensures Number(w, k) < Pow2(j) && (w == Ones(j) ==> Number(w, k) == Pow2(j) - 1)
    decreases k
  {
    hide Half, Bit, Narrow, Ones;
    if j == 0 {
      OnlyZero(w);
      NumberOfZero(k);
    } else {
      NarrowHalves(w, j);
      BitIsBounded(w);
      NarrowNumbers(Half(w), j - 1, k - 1);
    }
  }

  lemma {:induction false} NextCases(w: bv32, step: bv8)
    requires StepOk(step) && Narrow(w, step)
    ensures w == Ones(step) ==> NextWord(w, step, true) == 0
    ensures w != Ones(step) ==> NextWord(w, step, true) == Succ(w) && w != Ones(32)
  {
  }

  lemma {:induction false} AllNarrow(w: bv32)
    ensures Narrow(w, 32)
  {
  }

  /** One step up adds one modulo 2^step. */
  lemma {:induction false} NumberOfNext(w: bv32, step: bv8)
    requires StepOk(step) && Narrow(w, step)
    ensures Number(NextWord(w, step, true), 32) == (Number(w, 32) + 1) % Pow2(step)
  {
    hide Narrow, NextWord, Number, Ones, Succ, Pow2;
    NextCases(w, step);
    NarrowNumbers(w, step, 32);
    if w == Ones(step) {
      NumberOfZero(32);
      RemainderIs(Pow2(step), Pow2(step), 1, 0);
    } else {
      BelowOnes(w, step);
      AllNarrow(w);
      NumberOfSuccessor(w, 32);
      NarrowNumbers(Succ(w), step, 32);
      RemainderIs(Number(w, 32) + 1, Pow2(step), 0, Number(w, 32) + 1);
    }
  }

  lemma {:induction false} PreviousCases(w: bv32, step: bv8)
    requires StepOk(step) && Narrow(w, step)
    ensures Narrow(NextWord(w, step, false), step)
    ensures NextWord(NextWord(w, step, false), step, true) == w
  {
  }

  /** One step down takes one away modulo 2^step. */
  lemma {:induction false} NumberOfPrevious(w: bv32, step: bv8)
    requires StepOk(step) && Narrow(w, step)
    ensures Number(NextWord(w, step, false), 32) == (Number(w, 32) + Pow2(step) - 1) % Pow2(step)
  {
    hide Narrow, NextWord, Number, Ones, Succ, Pow2;
    var v := NextWord(w, step, false);
    PreviousCases(w, step);
    NumberOfNext(v, step);
    NarrowNumbers(v, step, 32);
    Wrapped(Number(v, 32), Pow2(step));
  }

  lemma {:induction false} Wrapped(n: nat, p: nat)
    requires n < p
    ensures ((n + 1) % p + p - 1) % p == n
  {
  }

  // Coordinates of a hash

  function Lat(bits: bv64): bv32 {
    (Deinterleave64(bits) & 0xFFFFFFFF) as bv32
  }

  function Lon(bits: bv64): bv32 {
    (Deinterleave64(bits) >> 32) as bv32
  }

  function Widen(w: bv32): bv64 {
    w as bv64
  }

  lemma {:induction false} Coordinates(h: bv64)
    ensures Widen(Lon(h)) == CoordX(h) && Widen(Lat(h)) == CoordY(h)
  {
  }

  lemma {:induction false} WidenInjective(v: bv32, w: bv32)
    requires Widen(v) == Widen(w)
    ensures v == w
  {
  }

  lemma {:induction false} WidenOnes(step: bv8)
    requires StepOk(step)
    ensures Mask(step) == Widen(Ones(step))
  {
  }

  lemma {:induction false} WidenUp(w: bv32, m: bv32)
    ensures And(Inc(Widen(w)), Widen(m)) == Widen(Both(Succ(w), m))
  {
  }

  lemma {:induction false} WidenDown(w: bv32, m: bv32)
    ensures And(Dec(Widen(w)), Widen(m)) == Widen(Both(Pred(w), m))
  {
  }

  lemma {:induction false} WidenNext(w: bv32, step: bv8, up: bool)
    requires StepOk(step)
    ensures Next(Widen(w), step, up) == Widen(NextWord(w, step, up))
  {
    hide And, Inc, Dec, Widen, Both, Succ, Pred, Mask, Ones;
    WidenOnes(step);
    WidenUp(w, Ones(step));
    WidenDown(w, Ones(step));
  }

  lemma {:induction false} WidenNarrow(w: bv32, step: bv8)
    requires StepOk(step) && And(Widen(w), Mask(step)) == Widen(w)
    ensures Narrow(w, step)
  {
  }

  /** The number of the column and of the row of a hash. */
  function Column(h: bv64): nat {
    Number(Lon(h), 32)
  }

  function Row(h: bv64): nat {
    Number(Lat(h), 32)
  }

  /** Moving along x adds d to the column modulo 2^step and keeps the row. */
  lemma {:induction false} MoveXNumbers(h: bv64, step: bv8, d: int)
    requires StepOk(step) && Fits(h, step) && (d == 1 || d == -1)
    ensures Column(MovedX(h, step, d)) == (Column(h) + Pow2(step) + d) % Pow2(step)
    ensures Row(MovedX(h, step, d)) == Row(h)
  {
    hide Lat, Lon, CoordX, CoordY, Widen, Next, NextWord, MovedX, Fits, StepOk, Narrow, Number, And, Mask;
    var g := MovedX(h, step, d);
    MoveXMoves(h, step, d);
    Coordinates(h);
    Coordinates(g);
    WidenInjective(Lat(g), Lat(h));
    FittingCoordinates(h, step);
    WidenNarrow(Lon(h), step);
    WidenNext(Lon(h), step, d > 0);
    WidenInjective(Lon(g), NextWord(Lon(h), step, d > 0));
    NextNumbers(Lon(h), step, d);
  }

  /** Moving along y adds d to the row modulo 2^step and keeps the column. */
  lemma {:induction false} MoveYNumbers(h: bv64, step: bv8, d: int)
    requires StepOk(step) && Fits(h, step) && (d == 1 || d == -1)
    ensures Row(MovedY(h, step, d)) == (Row(h) + Pow2(step) + d) % Pow2(step)
    ensures Column(MovedY(h, step, d)) == Column(h)
  {
    hide Lat, Lon, CoordX, CoordY, Widen, Next, NextWord, MovedY, Fits, StepOk, Narrow, Number, And, Mask;
    var g := MovedY(h, step, d);
    MoveYMoves(h, step, d);
    Coordinates(h);
    Coordinates(g);
    WidenInjective(Lon(g), Lon(h));
    FittingCoordinates(h, step);
    WidenNarrow(Lat(h), step);
    WidenNext(Lat(h), step, d > 0);
    WidenInjective(Lat(g), NextWord(Lat(h), step, d > 0));
    NextNumbers(Lat(h), step, d);
  }

  lemma {:induction false} NextNumbers(w: bv32, step: bv8, d: int)
    requires StepOk(step) && Narrow(w, step) && (d == 1 || d == -1)
    ensures Number(NextWord(w, step, d > 0), 32) == (Number(w, 32) + Pow2(step) + d) % Pow2(step)
  {
    hide NextWord, Narrow, Number, StepOk;
    if d == 1 {
      NumberOfNext(w, step);
      WholeTurn(Number(w, 32) + 1, Pow2(step));
    } else {
      NumberOfPrevious(w, step);
    }
  }

  lemma {:induction false} WholeTurn(n: nat, p: nat)
    requires p > 0
    ensures (n + p) % p == n % p
  {
    RemainderIs(n + p, p, n / p + 1, n % p);
  }

  // Encoding and decoding

  datatype Range = Range(min: real, max: real)
  datatype Area = Area(longitude: Range, latitude: Range)

  const LONG_MAX := 180.0
  const LAT_MAX := 85.05112878

  predicate IsZero(r: Range) {
    r.max == 0.0 && r.min == 0.0
  }

  predicate Within(p: real, r: Range) {
    r.min <= p <= r.max
  }

  /** A range that a position can be scaled to. */
  predicate Scalable(r: Range) {
    r.min != r.max
  }

  function Power(step: bv8): (p: real)
    ensures p >= 1.0
  {
    Pow2(step) as real
  }

  /** The cell that a position falls in, before it is cut to 32 bits. */
  function Cell(p: real, r: Range, step: bv8): int
    requires r.min != r.max
  {
    ((p - r.min) / (r.max - r.min) * Power(step)).Floor
  }

  lemma {:induction false} Fraction(a: real, b: real)
    requires 0.0 <= a <= b && b > 0.0
    ensures 0.0 <= a / b <= 1.0
  {
    assert a / b * b == a;
  }

  lemma {:induction false} ScaledBounds(p: real, r: Range, q: real)
    requires r.min < r.max && Within(p, r) && q >= 1.0
    ensures 0.0 <= (p - r.min) / (r.max - r.min) * q <= q
  {
    Fraction(p - r.min, r.max - r.min);
  }

  lemma {:induction false} CellBounds(p: real, r: Range, step: bv8)
    requires r.min < r.max && Within(p, r)
    ensures 0 <= Cell(p, r, step) <= Pow2(step)
  {
    ScaledBounds(p, r, Power(step));
  }

  function CellWord(p: real, r: Range, step: bv8): bv32
    requires r.min < r.max && Within(p, r)
  {
    CellBounds(p, r, step);
    Word(Cell(p, r, step), 32)
  }

  predicate Encodable(long: Range, lat: Range, longitude: real, latitude: real, step: bv8) {
    && StepOk(step) && lat != Range(0.0, 0.0) && long != Range(0.0, 0.0)
    && -LONG_MAX <= longitude <= LONG_MAX && -LAT_MAX <= latitude <= LAT_MAX
    && Within(latitude, lat) && Within(longitude, long)
  }

  function Encode(long: Range, lat: Range, longitude: real, latitude: real, step: bv8): (r: Option<bv64>)
    requires Encodable(long, lat, longitude, latitude, step) ==> Scalable(long) && Scalable(lat)
    ensures r.Some? <==> Encodable(long, lat, longitude, latitude, step)
  {
    if step > 32 || step == 0 || IsZero(lat) || IsZero(long) then None
    else if longitude > LONG_MAX || longitude < -LONG_MAX || latitude > LAT_MAX || latitude < -LAT_MAX then None
    else if latitude < lat.min || latitude > lat.max || longitude < long.min || longitude > long.max then None
    else Some(Interleave64(CellWord(latitude, lat, step), CellWord(longitude, long, step)))
  }

  /** The number after a cell's own, in 32 bits. */
  function After(i: nat): nat {
    (i + 1) % Pow2(32)
  }

  /** Where the i-th cell of a range begins. */
  function At(r: Range, i: int, step: bv8): real {
    r.min + i as real / Power(step) * (r.max - r.min)
  }

  function Side(r: Range, i: nat, step: bv8): Range {
    Range(At(r, i, step), At(r, After(i), step))
  }

  function Decode(long: Range, lat: Range, bits: bv64, step: bv8): (r: Option<Area>)
    requires step < 64
    ensures r.Some? <==> (bits != 0 || step != 0) && lat != Range(0.0, 0.0) && long != Range(0.0, 0.0)
  {
    if (bits == 0 && step == 0) || IsZero(lat) || IsZero(long) then None
    else Some(Area(Side(long, Column(bits), step), Side(lat, Row(bits), step)))
  }

  function Centre(r: Range): real {
    (r.min + r.max) / 2.0
  }

  // The cell holds the point

  predicate Holds(r: Range, p: real) {
    r.min <= p < r.max
  }

  /** The point is not in the last cell of all, whose upper end wraps, nor past it. */
  predicate RoomAfter(p: real, r: Range, step: bv8)
    requires r.min != r.max
  {
    Cell(p, r, step) < Pow2(32) - 1
  }

  lemma {:induction false} RealCell(p: real, q: real, scale: real, min: real, i: int, j: int)
    requires q > 0.0 && scale > 0.0 && i == ((p - min) / scale * q).Floor && j == i + 1
    ensures min + i as real / q * scale <= p < min + j as real / q * scale
  {
    var o := (p - min) / scale;
    assert i as real <= o * q < j as real;
    assert i as real / q <= o;
    assert o < j as real / q;
  }

  lemma {:induction false} Pow2Monotone(j: bv8, k: bv8)
    requires j <= k
    ensures Pow2(j) <= Pow2(k) && (j < k ==> 2 * Pow2(j) <= Pow2(k))
    decreases k
  {
    if j < k {
      Pow2Monotone(j, k - 1);
    }
  }

  lemma {:induction false} AfterCases(i: nat)
    requires i < Pow2(32)
    ensures After(i) == if i + 1 < Pow2(32) then i + 1 else 0
  {
    hide Pow2;
    if i + 1 < Pow2(32) {
      RemainderIs(i + 1, Pow2(32), 0, i + 1);
    } else {
      RemainderIs(i + 1, Pow2(32), 1, 0);
    }
  }

  lemma {:induction false} AtGrows(r: Range, i: int, j: int, step: bv8)
    requires i <= j && r.min < r.max
    ensures At(r, i, step) <= At(r, j, step)
  {
    hide Power;
    assert i as real / Power(step) <= j as real / Power(step);
  }

  lemma {:induction false} AtZero(r: Range, step: bv8)
    ensures At(r, 0, step) == r.min
  {
  }

  lemma {:induction false} Apart(r: Range, i: int, step: bv8)
    ensures At(r, i + 1, step) - At(r, i, step) == (r.max - r.min) / Power(step)
  {
    hide Power;
    var q, scale := Power(step), r.max - r.min;
    assert (i + 1) as real / q == i as real / q + 1.0 / q;
    assert 1.0 / q * scale == scale / q;
  }

  lemma {:induction false} CellAt(p: real, r: Range, step: bv8)
    requires r.min < r.max
    ensures At(r, Cell(p, r, step), step) <= p < At(r, Cell(p, r, step) + 1, step)
  {
    hide Power;
    var n, q, scale := Cell(p, r, step), Power(step), r.max - r.min;
    RealCell(p, q, scale, r.min, n, n + 1);
  }

  lemma {:induction false} CellRoom(p: real, r: Range, step: bv8)
    requires StepOk(step) && r.min < r.max && Within(p, r)
    ensures 0 <= Cell(p, r, step) <= Pow2(32) && Pow2(32) >= 2
    ensures step < 32 ==> RoomAfter(p, r, step)
  {
    hide Cell;
    CellBounds(p, r, step);
    Pow2Monotone(step, 32);
    Pow2Monotone(0, 32);
    Pow2Monotone(0, step);
  }

  lemma {:induction false} CutCell(n: nat)
    requires n <= Pow2(32) && Pow2(32) >= 2
    ensures n % Pow2(32) == if n < Pow2(32) then n else 0
  {
    hide Pow2;
    if n < Pow2(32) {
      RemainderIs(n, Pow2(32), 0, n);
    } else {
      RemainderIs(n, Pow2(32), 1, 0);
    }
  }

  /** The side of the cut cell holds the position exactly if there is room after it. */
  lemma {:induction false} SideHolds(p: real, r: Range, step: bv8)
    requires StepOk(step) && r.min < r.max && Within(p, r)
    ensures Cell(p, r, step) >= 0
    ensures Holds(Side(r, Cell(p, r, step) % Pow2(32), step), p) <==> RoomAfter(p, r, step)
  {
    hide Pow2, Cell, At, After;
    var n := Cell(p, r, step);
    CellRoom(p, r, step);
    CellAt(p, r, step);
    CutCell(n);
    AfterCases(n % Pow2(32));
    AtZero(r, step);
    if n > 0 {
      AtGrows(r, 1, n, step);
    }
  }

  lemma {:induction false} EncodedCells(long: Range, lat: Range, longitude: real, latitude: real, step: bv8)
    requires Scalable(long) && Scalable(lat) && Encodable(long, lat, longitude, latitude, step)
    ensures Cell(longitude, long, step) >= 0 && Cell(latitude, lat, step) >= 0
    ensures var bits := Encode(long, lat, longitude, latitude, step).value;
            Column(bits) == Cell(longitude, long, step) % Pow2(32) && Row(bits) == Cell(latitude, lat, step) % Pow2(32)
  {
    hide Interleave64, Deinterleave64, Word, Number, Pow2, Cell;
    CellBounds(longitude, long, step);
    CellBounds(latitude, lat, step);
    DeinterleaveInvertsInterleave(CellWord(latitude, lat, step), CellWord(longitude, long, step));
    NumberOfWord(Cell(longitude, long, step), 32);
    NumberOfWord(Cell(latitude, lat, step), 32);
  }

  /** Decoding the hash of a point gives a cell that holds it, exactly if there is room after it on each side. */
  lemma {:induction false} CellHoldsPoint(long: Range, lat: Range, longitude: real, latitude: real, step: bv8)
    requires Scalable(long) && Scalable(lat) && Encodable(long, lat, longitude, latitude, step)
    ensures var bits := Encode(long, lat, longitude, latitude, step).value;
            && var area := Decode(long, lat, bits, step);
            && area.Some?
            && (Holds(area.value.longitude, longitude) <==> RoomAfter(longitude, long, step))
            && (Holds(area.value.latitude, latitude) <==> RoomAfter(latitude, lat, step))
    ensures step < 32 ==> RoomAfter(longitude, long, step) && RoomAfter(latitude, lat, step)
  {
    hide Side, Holds, Encode, Column, Row, Pow2, RoomAfter, Cell;
    EncodedCells(long, lat, longitude, latitude, step);
    SideHolds(longitude, long, step);
    SideHolds(latitude, lat, step);
    CellRoom(longitude, long, step);
    CellRoom(latitude, lat, step);
  }

  /** A side that does not wrap is the range divided by 2^step wide, and its centre is at most half of that off. */
  predicate Near(side: Range, p: real, r: Range, step: bv8) {
    var width := (r.max - r.min) / Power(step);
    side.max - side.min == width && -width / 2.0 <= Centre(side) - p <= width / 2.0
  }

  lemma {:induction false} SideIsNear(p: real, r: Range, step: bv8)
    requires StepOk(step) && r.min < r.max && Within(p, r) && RoomAfter(p, r, step)
    ensures Cell(p, r, step) >= 0
    ensures Near(Side(r, Cell(p, r, step) % Pow2(32), step), p, r, step)
  {
    hide Pow2, Power, Cell, At, After;
    var n := Cell(p, r, step);
    CellRoom(p, r, step);
    CellAt(p, r, step);
    CutCell(n);
    AfterCases(n);
    Apart(r, n, step);
  }

  /** The centre of the decoded cell is within half a cell of the point. */
  lemma {:induction false} CentreIsNear(long: Range, lat: Range, longitude: real, latitude: real, step: bv8)
    requires Scalable(long) && Scalable(lat) && Encodable(long, lat, longitude, latitude, step)
    requires RoomAfter(longitude, long, step) && RoomAfter(latitude, lat, step)
    ensures var bits := Encode(long, lat, longitude, latitude, step).value;
            && var area := Decode(long, lat, bits, step);
            && area.Some?
            && Near(area.value.longitude, longitude, long, step)
            && Near(area.value.latitude, latitude, lat, step)
  {
    hide Side, Near, Encode, Column, Row, Pow2, RoomAfter, Cell;
    EncodedCells(long, lat, longitude, latitude, step);
    SideIsNear(longitude, long, step);
    SideIsNear(latitude, lat, step);
  }

  lemma {:induction false} NoPower()
    ensures Pow2(0) == 1
  {
  }

  lemma {:induction false} Sixteenfold(k: bv8)
    requires k <= 28
    ensures Pow2(k + 4) == 16 * Pow2(k)
  {
    assert Pow2(k + 1) == 2 * Pow2(k);
    assert Pow2(k + 2) == 2 * Pow2(k + 1);
    assert Pow2(k + 3) == 2 * Pow2(k + 2);
  }

  lemma {:induction false} Pow2Of32()
    ensures Pow2(32) == 0x1_0000_0000
  {
    hide Pow2;
    NoPower();
    Sixteenfold(0);
    Sixteenfold(4);
    Sixteenfold(8);
    Sixteenfold(12);
    Sixteenfold(16);
    Sixteenfold(20);
    Sixteenfold(24);
    Sixteenfold(28);
  }

  // half a cell from the eastern edge of the world, with 32 steps
  const NEAR_EDGE := 180.0 - 360.0 / 8589934592.0

  /** With 32 steps a point in the last column is not in its own cell, whose number after wraps to zero. */
  lemma {:induction false} LastCellBreaks()
    ensures var long, lat := Range(-LONG_MAX, LONG_MAX), Range(-LAT_MAX, LAT_MAX);
            && Encodable(long, lat, NEAR_EDGE, 0.0, 32)
            && Cell(NEAR_EDGE, long, 32) == 0xFFFF_FFFF
            && var bits := Encode(long, lat, NEAR_EDGE, 0.0, 32).value;
            && !Holds(Decode(long, lat, bits, 32).value.longitude, NEAR_EDGE)
  {
    hide Encode, Decode, Side, Holds, Pow2, Column, Row;
    var long, lat := Range(-LONG_MAX, LONG_MAX), Range(-LAT_MAX, LAT_MAX);
    Pow2Of32();
    assert (NEAR_EDGE - long.min) / (long.max - long.min) * Power(32) == 4294967295.5;
    CellHoldsPoint(long, lat, NEAR_EDGE, 0.0, 32);
  }

  // Neighbouring cells adjoin

  lemma {:induction false} SidesAdjoin(r: Range, i: nat, step: bv8)
    requires StepOk(step) && i < Pow2(step)
    ensures Side(r, (i + Pow2(step) + 1) % Pow2(step), step).min
         == if i + 1 < Pow2(step) then Side(r, i, step).max else r.min
  {
    hide Pow2, At, After;
    WholeTurn(i + 1, Pow2(step));
    Pow2Monotone(step, 32);
    AfterCases(i);
    AtZero(r, step);
    if i + 1 < Pow2(step) {
      RemainderIs(i + 1, Pow2(step), 0, i + 1);
    } else {
      RemainderIs(i + 1, Pow2(step), 1, 0);
    }
  }

  /** The eastern cell begins where this one ends, in the same row; the last column is followed by the first. */
  lemma {:induction false} EastAdjoins(long: Range, lat: Range, h: bv64, step: bv8)
    requires StepOk(step) && Fits(h, step) && long != Range(0.0, 0.0) && lat != Range(0.0, 0.0)
    ensures Column(h) < Pow2(step)
    ensures var here := Decode(long, lat, h, step).value;
            var east := Decode(long, lat, MovedX(h, step, 1), step).value;
            && east.latitude == here.latitude
            && east.longitude.min == if Column(h) + 1 < Pow2(step) then here.longitude.max else long.min
  {
    hide Side, Column, Row, Fits, MovedX, Pow2;
    MoveXNumbers(h, step, 1);
    FittingNumbers(h, step);
    SidesAdjoin(long, Column(h), step);
  }

  /** The northern cell begins where this one ends, in the same column; the last row is followed by the first. */
  lemma {:induction false} NorthAdjoins(long: Range, lat: Range, h: bv64, step: bv8)
    requires StepOk(step) && Fits(h, step) && long != Range(0.0, 0.0) && lat != Range(0.0, 0.0)
    ensures Row(h) < Pow2(step)
    ensures var here := Decode(long, lat, h, step).value;
            var north := Decode(long, lat, MovedY(h, step, 1), step).value;
            && north.longitude == here.longitude
            && north.latitude.min == if Row(h) + 1 < Pow2(step) then here.latitude.max else lat.min
  {
    hide Side, Column, Row, Fits, MovedY, Pow2;
    MoveYNumbers(h, step, 1);
    FittingNumbers(h, step);
    SidesAdjoin(lat, Row(h), step);
  }

  lemma {:induction false} FittingNumbers(h: bv64, step: bv8)
    requires StepOk(step) && Fits(h, step)
    ensures Column(h) < Pow2(step) && Row(h) < Pow2(step)
  {
    hide Lat, Lon, CoordX, CoordY, Widen, Fits, Narrow, Number, And, Mask, Pow2;
    Coordinates(h);
    FittingCoordinates(h, step);
    WidenNarrow(Lon(h), step);
    WidenNarrow(Lat(h), step);
    NarrowNumbers(Lon(h), step, 32);
    NarrowNumbers(Lat(h), step, 32);
  }
}
