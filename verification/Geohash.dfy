/**
 Geohashes as words: interleaved cell coordinates, and the neighbours of a cell, found by carrying through
 the bits of the other coordinate.
 */
module Geohash {
  // Interleaving

  /** The 32 low bits moved to the even positions. */
  function Spread(lo: bv64): bv64 {
    var a := (lo | (lo << 16)) & 0x0000FFFF0000FFFF;
    var b := (a | (a << 8)) & 0x00FF00FF00FF00FF;
    var c := (b | (b << 4)) & 0x0F0F0F0F0F0F0F0F;
    var d := (c | (c << 2)) & 0x3333333333333333;
    (d | (d << 1)) & 0x5555555555555555
  }

  /** The bits in the even positions moved to the 32 low ones. */
  function Gather(h: bv64): bv64 {
    var x := h & 0x5555555555555555;
    var a := (x | (x >> 1)) & 0x3333333333333333;
    var b := (a | (a >> 2)) & 0x0F0F0F0F0F0F0F0F;
    var c := (b | (b >> 4)) & 0x00FF00FF00FF00FF;
    var d := (c | (c >> 8)) & 0x0000FFFF0000FFFF;
    (d | (d >> 16)) & 0x00000000FFFFFFFF
  }

  function Interleave64(xlo: bv32, ylo: bv32): bv64 {
    Spread(xlo as bv64) | (Spread(ylo as bv64) << 1)
  }

  function Deinterleave64(interleaved: bv64): bv64 {
    Gather(interleaved) | (Gather(interleaved >> 1) << 32)
  }

  lemma {:induction false} GatherOfSpread(x: bv32, y: bv32)
    ensures Gather(Interleave64(x, y)) == x as bv64
    ensures Gather(Interleave64(x, y) >> 1) == y as bv64
  {
  }

  lemma {:induction false} SpreadOfGather(h: bv64)
    ensures Spread(Gather(h)) | (Spread(Gather(h >> 1)) << 1) == h
  {
  }

  lemma {:induction false} Halves(x: bv32, y: bv32)
    ensures (((x as bv64) | ((y as bv64) << 32)) & 0xFFFFFFFF) as bv32 == x
    ensures (((x as bv64) | ((y as bv64) << 32)) >> 32) as bv32 == y
  {
  }

  /** De-interleaving gives back both coordinates, the first in the low half. */
  lemma {:induction false} DeinterleaveInvertsInterleave(x: bv32, y: bv32)
    ensures Deinterleave64(Interleave64(x, y)) == (x as bv64) | ((y as bv64) << 32)
    ensures (Deinterleave64(Interleave64(x, y)) & 0xFFFFFFFF) as bv32 == x
    ensures (Deinterleave64(Interleave64(x, y)) >> 32) as bv32 == y
  {
    hide Gather, Interleave64;
    GatherOfSpread(x, y);
    Halves(x, y);
  }

  /** Bit i of the first coordinate is bit 2i of the hash, and of the second bit 2i + 1. */
  lemma {:induction false} InterleavedBits(x: bv32, y: bv32, i: bv8)
    requires i < 32
    ensures (Interleave64(x, y) >> (2 * i)) & 1 == ((x as bv64) >> i) & 1
    ensures (Interleave64(x, y) >> (2 * i + 1)) & 1 == ((y as bv64) >> i) & 1
  {
  }

  /** The two coordinates determine the hash. */
  lemma {:induction false} CoordinatesDetermine(g: bv64, h: bv64)
    requires CoordX(g) == CoordX(h) && CoordY(g) == CoordY(h)
    ensures g == h
  {
    hide Gather, Spread;
    SpreadOfGather(g);
    SpreadOfGather(h);
  }

  // Neighbours

  /** A step count that the hash has room for. */
  predicate StepOk(step: bv8) {
    1 <= step <= 32
  }

  function EvenBits(step: bv8): bv64
    requires StepOk(step)
  {
    0x5555555555555555 >> (64 - step * 2)
  }

  function OddBits(step: bv8): bv64
    requires StepOk(step)
  {
    0xaaaaaaaaaaaaaaaa >> (64 - step * 2)
  }

  /** The values that a coordinate of the given step takes. */
  function Mask(step: bv8): bv64
    requires StepOk(step)
  {
    0xFFFFFFFF >> (32 - step)
  }

  /** The x coordinate, the longitude, is in the odd bits and the y coordinate in the even ones. */
  function CoordX(h: bv64): bv64 {
    Gather(h >> 1)
  }

  function CoordY(h: bv64): bv64 {
    Gather(h)
  }

  function And(x: bv64, mask: bv64): bv64 {
    x & mask
  }

  predicate OddOnly(x: bv64) {
    x & 0x5555555555555555 == 0
  }

  predicate EvenOnly(y: bv64) {
    y & 0xaaaaaaaaaaaaaaaa == 0
  }

  function XBits(h: bv64): bv64 {
    h & 0xaaaaaaaaaaaaaaaa
  }

  function YBits(h: bv64): bv64 {
    h & 0x5555555555555555
  }

  function Join(x: bv64, y: bv64): bv64 {
    x | y
  }

  /** Adding one carries through even bits that are all ones; setting them first lets a borrow through. */
  function ShiftX(x: bv64, step: bv8, up: bool): bv64
    requires StepOk(step)
  {
    var zz := EvenBits(step);
    (if up then x + (zz + 1) else (x | zz) - (zz + 1)) & OddBits(step)
  }

  function ShiftY(y: bv64, step: bv8, up: bool): bv64
    requires StepOk(step)
  {
    var zz := OddBits(step);
    (if up then y + (zz + 1) else (y | zz) - (zz + 1)) & EvenBits(step)
  }

  function MovedX(bits: bv64, step: bv8, d: int): bv64
    requires StepOk(step)
  {
    if d == 0 then bits else Join(ShiftX(XBits(bits), step, d > 0), YBits(bits))
  }

  function MovedY(bits: bv64, step: bv8, d: int): bv64
    requires StepOk(step)
  {
    if d == 0 then bits else Join(XBits(bits), ShiftY(YBits(bits), step, d > 0))
  }

  function Inc(x: bv64): bv64 {
    x + 1
  }

  function Dec(x: bv64): bv64 {
    x - 1
  }

  /** A coordinate one further, or one back, around the world. */
  function Next(c: bv64, step: bv8, up: bool): bv64
    requires StepOk(step)
  {
    And(if up then Inc(c) else Dec(c), Mask(step))
  }

  function Stepped(c: bv64, step: bv8, d: int): bv64
    requires StepOk(step)
  {
    if d == 0 then c else Next(c, step, d > 0)
  }

  // Facts about single operations on the bits

  function DecLow(c: bv64): bv64 {
    And(Dec(c), 0xFFFFFFFF)
  }

  function IncLow(c: bv64): bv64 {
    And(Inc(c), 0xFFFFFFFF)
  }

  lemma {:induction false} DecX(x: bv64)
    requires OddOnly(x)
    ensures CoordX(Dec(x)) == DecLow(CoordX(x))
  {
  }

  lemma {:induction false} DecY(y: bv64)
    requires EvenOnly(y)
    ensures CoordY(Dec(y)) == DecLow(CoordY(y))
  {
  }

  lemma {:induction false} MaskedX(x: bv64, step: bv8)
    requires StepOk(step)
    ensures CoordX(And(x, OddBits(step))) == And(CoordX(x), Mask(step))
  {
  }

  lemma {:induction false} MaskedY(y: bv64, step: bv8)
    requires StepOk(step)
    ensures CoordY(And(y, EvenBits(step))) == And(CoordY(y), Mask(step))
  {
  }

  lemma {:induction false} ShiftBackIsDecX(x: bv64, step: bv8)
    requires StepOk(step) && OddOnly(x)
    ensures ShiftX(x, step, false) == And(Dec(x), OddBits(step))
  {
  }

  lemma {:induction false} ShiftBackIsDecY(y: bv64, step: bv8)
    requires StepOk(step) && EvenOnly(y)
    ensures ShiftY(y, step, false) == And(Dec(y), EvenBits(step))
  {
  }

  lemma {:induction false} AndAssociative(x: bv64, y: bv64, z: bv64)
    ensures And(And(x, y), z) == And(x, And(y, z))
  {
  }

  lemma {:induction false} MaskIsLow(step: bv8)
    requires StepOk(step)
    ensures And(0xFFFFFFFF, Mask(step)) == Mask(step)
  {
  }

  lemma {:induction false} MaskedMinus(c: bv64, step: bv8)
    requires StepOk(step)
    ensures And(DecLow(c), Mask(step)) == Next(c, step, false)
  {
    hide And, Dec, Mask, StepOk;
    AndAssociative(Dec(c), 0xFFFFFFFF, Mask(step));
    MaskIsLow(step);
  }

  /** With all the other coordinate's bits set, adding one carries into this coordinate. */
  function IncX(x: bv64): bv64 {
    (x | 0x5555555555555555) + 1
  }

  function IncY(y: bv64): bv64 {
    (y | 0xaaaaaaaaaaaaaaaa) + 1
  }

  lemma {:induction false} IncXCoordinate(x: bv64)
    requires OddOnly(x)
    ensures CoordX(IncX(x)) == IncLow(CoordX(x))
  {
  }

  lemma {:induction false} IncYCoordinate(y: bv64)
    requires EvenOnly(y)
    ensures CoordY(IncY(y)) == IncLow(CoordY(y))
  {
  }

  lemma {:induction false} ShiftUpIsIncX(x: bv64, step: bv8)
    requires StepOk(step) && OddOnly(x)
    ensures ShiftX(x, step, true) == And(IncX(x), OddBits(step))
  {
  }

  lemma {:induction false} ShiftUpIsIncY(y: bv64, step: bv8)
    requires StepOk(step) && EvenOnly(y)
    ensures ShiftY(y, step, true) == And(IncY(y), EvenBits(step))
  {
  }

  lemma {:induction false} MaskedPlus(c: bv64, step: bv8)
    requires StepOk(step)
    ensures And(IncLow(c), Mask(step)) == Next(c, step, true)
  {
    hide And, Inc, Mask, StepOk;
    AndAssociative(Inc(c), 0xFFFFFFFF, Mask(step));
    MaskIsLow(step);
  }

  lemma {:induction false} ShiftUpX(x: bv64, step: bv8)
    requires StepOk(step) && OddOnly(x)
    ensures CoordX(ShiftX(x, step, true)) == Next(CoordX(x), step, true)
  {
    hide *;
    ShiftUpIsIncX(x, step);
    MaskedX(IncX(x), step);
    IncXCoordinate(x);
    MaskedPlus(CoordX(x), step);
  }

  lemma {:induction false} ShiftUpY(y: bv64, step: bv8)
    requires StepOk(step) && EvenOnly(y)
    ensures CoordY(ShiftY(y, step, true)) == Next(CoordY(y), step, true)
  {
    hide *;
    ShiftUpIsIncY(y, step);
    MaskedY(IncY(y), step);
    IncYCoordinate(y);
    MaskedPlus(CoordY(y), step);
  }

  lemma {:induction false} ShiftBackX(x: bv64, step: bv8)
    requires StepOk(step) && OddOnly(x)
    ensures CoordX(ShiftX(x, step, false)) == Next(CoordX(x), step, false)
  {
    hide *;
    ShiftBackIsDecX(x, step);
    MaskedX(Dec(x), step);
    DecX(x);
    MaskedMinus(CoordX(x), step);
  }

  lemma {:induction false} ShiftBackY(y: bv64, step: bv8)
    requires StepOk(step) && EvenOnly(y)
    ensures CoordY(ShiftY(y, step, false)) == Next(CoordY(y), step, false)
  {
    hide *;
    ShiftBackIsDecY(y, step);
    MaskedY(Dec(y), step);
    DecY(y);
    MaskedMinus(CoordY(y), step);
  }

  // The two coordinates together

  lemma {:induction false} JoinedCoordinates(x: bv64, y: bv64)
    requires OddOnly(x) && EvenOnly(y)
    ensures CoordX(Join(x, y)) == CoordX(x) && CoordY(Join(x, y)) == CoordY(y)
  {
  }

  lemma {:induction false} CoordinateBits(h: bv64)
    ensures OddOnly(XBits(h)) && EvenOnly(YBits(h))
    ensures CoordX(XBits(h)) == CoordX(h) && CoordY(YBits(h)) == CoordY(h)
  {
  }

  lemma {:induction false} ShiftedBits(h: bv64, step: bv8, up: bool)
    requires StepOk(step)
    ensures OddOnly(ShiftX(h, step, up)) && EvenOnly(ShiftY(h, step, up))
  {
  }

  /** Moving along x changes that coordinate by one modulo 2^step and leaves the other. */
  lemma {:induction false} MoveXMoves(bits: bv64, step: bv8, d: int)
    requires StepOk(step)
    ensures CoordX(MovedX(bits, step, d)) == Stepped(CoordX(bits), step, d)
    ensures CoordY(MovedX(bits, step, d)) == CoordY(bits)
  {
    hide CoordX, CoordY, OddOnly, EvenOnly, XBits, YBits, Join, ShiftX, Next, StepOk;
    var x := XBits(bits);
    CoordinateBits(bits);
    ShiftedBits(x, step, d > 0);
    JoinedCoordinates(ShiftX(x, step, d > 0), YBits(bits));
    ShiftUpX(x, step);
    ShiftBackX(x, step);
  }

  lemma {:induction false} MoveYMoves(bits: bv64, step: bv8, d: int)
    requires StepOk(step)
    ensures CoordY(MovedY(bits, step, d)) == Stepped(CoordY(bits), step, d)
    ensures CoordX(MovedY(bits, step, d)) == CoordX(bits)
  {
    hide CoordX, CoordY, OddOnly, EvenOnly, XBits, YBits, Join, ShiftY, Next, StepOk;
    var y := YBits(bits);
    CoordinateBits(bits);
    ShiftedBits(y, step, d > 0);
    JoinedCoordinates(XBits(bits), ShiftY(y, step, d > 0));
    ShiftUpY(y, step);
    ShiftBackY(y, step);
  }

  /** All bits of the hash are within twice the step. */
  predicate Fits(h: bv64, step: bv8)
    requires StepOk(step)
  {
    h & (EvenBits(step) | OddBits(step)) == h
  }

  lemma {:induction false} FittingBits(h: bv64, step: bv8)
    requires StepOk(step) && Fits(h, step)
    ensures And(h, OddBits(step)) == XBits(h) && And(h, EvenBits(step)) == YBits(h)
  {
  }

  lemma {:induction false} FittingCoordinates(h: bv64, step: bv8)
    requires StepOk(step) && Fits(h, step)
    ensures And(CoordX(h), Mask(step)) == CoordX(h) && And(CoordY(h), Mask(step)) == CoordY(h)
  {
    hide *;
    FittingBits(h, step);
    CoordinateBits(h);
    MaskedX(h, step);
    MaskedY(h, step);
  }

  lemma {:induction false} NextInverse(c: bv64, step: bv8)
    requires StepOk(step) && And(c, Mask(step)) == c
    ensures Next(Next(c, step, true), step, false) == c && Next(Next(c, step, false), step, true) == c
  {
  }

  /** East and west undo each other, and so do north and south, around the world as well. */
  lemma {:induction false} MovesAreInverse(h: bv64, step: bv8)
    requires StepOk(step) && Fits(h, step)
    ensures MovedX(MovedX(h, step, 1), step, -1) == h && MovedX(MovedX(h, step, -1), step, 1) == h
    ensures MovedY(MovedY(h, step, 1), step, -1) == h && MovedY(MovedY(h, step, -1), step, 1) == h
  {
    hide *;
    FittingCoordinates(h, step);
    NextInverse(CoordX(h), step);
    NextInverse(CoordY(h), step);
    InverseX(h, step, 1);
    InverseX(h, step, -1);
    InverseY(h, step, 1);
    InverseY(h, step, -1);
  }

  lemma {:induction false} InverseX(h: bv64, step: bv8, d: int)
    requires StepOk(step) && (d == 1 || d == -1)
    requires Next(Next(CoordX(h), step, d > 0), step, !(d > 0)) == CoordX(h)
    ensures MovedX(MovedX(h, step, d), step, -d) == h
  {
    hide CoordX, CoordY, MovedX, Next, StepOk;
    MoveXMoves(h, step, d);
    MoveXMoves(MovedX(h, step, d), step, -d);
    CoordinatesDetermine(MovedX(MovedX(h, step, d), step, -d), h);
  }

  lemma {:induction false} InverseY(h: bv64, step: bv8, d: int)
    requires StepOk(step) && (d == 1 || d == -1)
    requires Next(Next(CoordY(h), step, d > 0), step, !(d > 0)) == CoordY(h)
    ensures MovedY(MovedY(h, step, d), step, -d) == h
  {
    hide CoordX, CoordY, MovedY, Next, StepOk;
    MoveYMoves(h, step, d);
    MoveYMoves(MovedY(h, step, d), step, -d);
    CoordinatesDetermine(MovedY(MovedY(h, step, d), step, -d), h);
  }

  /** A diagonal neighbour is reached in either order. */
  lemma {:induction false} MovesCommute(h: bv64, step: bv8, dx: int, dy: int)
    requires StepOk(step)
    ensures MovedX(MovedY(h, step, dy), step, dx) == MovedY(MovedX(h, step, dx), step, dy)
  {
    hide CoordX, CoordY, MovedX, MovedY, StepOk, Stepped;
    MoveXMoves(h, step, dx);
    MoveYMoves(h, step, dy);
    MoveXMoves(MovedY(h, step, dy), step, dx);
    MoveYMoves(MovedX(h, step, dx), step, dy);
    CoordinatesDetermine(MovedX(MovedY(h, step, dy), step, dx), MovedY(MovedX(h, step, dx), step, dy));
  }

  method CarryX(x: bv64, step: bv8, d: int) returns (r: bv64)
    requires StepOk(step) && d != 0
    ensures r == ShiftX(x, step, d > 0)
  {
    hide EvenBits, OddBits, StepOk;
    if d > 0 {
      r := (x + (EvenBits(step) + 1)) & OddBits(step);
    } else {
      r := ((x | EvenBits(step)) - (EvenBits(step) + 1)) & OddBits(step);
    }
  }

  method CarryY(y: bv64, step: bv8, d: int) returns (r: bv64)
    requires StepOk(step) && d != 0
    ensures r == ShiftY(y, step, d > 0)
  {
    hide EvenBits, OddBits, StepOk;
    if d > 0 {
      r := (y + (OddBits(step) + 1)) & EvenBits(step);
    } else {
      r := ((y | OddBits(step)) - (OddBits(step) + 1)) & EvenBits(step);
    }
  }

  class GeoHashBits {
    var bits: bv64
    const step: bv8

    constructor (bits: bv64, step: bv8)
      ensures this.bits == bits && this.step == step
    {
      this.bits, this.step := bits, step;
    }

    method MoveX(d: int)
      requires StepOk(step)
      modifies this
      ensures bits == MovedX(old(bits), step, d)
    {
      hide StepOk, XBits, YBits, Join, ShiftX;
      if d == 0 {
        return;
      }
      var x := XBits(bits);
      var y := YBits(bits);
      x := CarryX(x, step, d);
      bits := Join(x, y);
    }

    method MoveY(d: int)
      requires StepOk(step)
      modifies this
      ensures bits == MovedY(old(bits), step, d)
    {
      hide StepOk, XBits, YBits, Join, ShiftY;
      if d == 0 {
        return;
      }
      var x := XBits(bits);
      var y := YBits(bits);
      y := CarryY(y, step, d);
      bits := Join(x, y);
    }
  }

  datatype Neighbors = Neighbors(
    north: bv64, east: bv64, west: bv64, south: bv64,
    northEast: bv64, southEast: bv64, northWest: bv64, southWest: bv64)

  /** The cell that lies dx and dy steps away, by its coordinates. */
  predicate LiesAt(n: bv64, h: bv64, step: bv8, dx: int, dy: int)
    requires StepOk(step)
  {
    CoordX(n) == Stepped(CoordX(h), step, dx) && CoordY(n) == Stepped(CoordY(h), step, dy)
  }

  method Moved(h: bv64, step: bv8, dx: int, dy: int) returns (n: bv64)
    requires StepOk(step)
    ensures LiesAt(n, h, step, dx, dy)
  {
    hide CoordX, CoordY, MovedX, MovedY, StepOk, Stepped;
    var g := new GeoHashBits(h, step);
    g.MoveX(dx);
    g.MoveY(dy);
    n := g.bits;
    MoveXMoves(h, step, dx);
    MoveYMoves(MovedX(h, step, dx), step, dy);
  }

  method GeohashNeighbors(h: bv64, step: bv8) returns (n: Neighbors)
    requires StepOk(step)
    ensures LiesAt(n.east, h, step, 1, 0) && LiesAt(n.west, h, step, -1, 0)
    ensures LiesAt(n.south, h, step, 0, -1) && LiesAt(n.north, h, step, 0, 1)
    ensures LiesAt(n.northWest, h, step, -1, 1) && LiesAt(n.northEast, h, step, 1, 1)
    ensures LiesAt(n.southEast, h, step, 1, -1) && LiesAt(n.southWest, h, step, -1, -1)
  {
    hide LiesAt;
    var east := Moved(h, step, 1, 0);
    var west := Moved(h, step, -1, 0);
    var south := Moved(h, step, 0, -1);
    var north := Moved(h, step, 0, 1);
    var northWest := Moved(h, step, -1, 1);
    var northEast := Moved(h, step, 1, 1);
    var southEast := Moved(h, step, 1, -1);
    var southWest := Moved(h, step, -1, -1);
    n := Neighbors(north, east, west, south, northEast, southEast, northWest, southWest);
  }
}
