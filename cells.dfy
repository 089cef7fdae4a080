/**
 * The hex-cell algebra of the solver: integer cells in odd-row offset
 * coordinates, componentwise addition and subtraction, structural equality
 * and the integer-only 60-degree rotation about the origin.
 */
module Cells {

  datatype Cell = Cell(x: int, y: int)

  const Zero := Cell(0, 0)
  const West := Cell(-1, 0)
  const East := Cell(1, 0)
  const SouthWest := Cell(-1, 1)
  /** As declared by the solver; the rotation treats (0, 1) as the south-east neighbour. */
  const SouthEast := Cell(1, 1)

  /** Integer division rounding toward zero, as C#'s `/` on `int`. */
  function Quot(a: int, d: int): (q: int)
    requires d > 0
    ensures a >= 0 ==> 0 <= a - d * q < d
    ensures a < 0 ==> -d < a - d * q <= 0
  {
    if a >= 0 then a / d else -((-a) / d)
  }

  /** Bit 0 of the two's-complement representation, as C#'s `a & 1`. */
  function Odd(a: int): (b: int)
    ensures b == 0 || b == 1
    ensures (a - b) % 2 == 0
  {
    a % 2
  }

  /** The solver's `+`: componentwise addition, undone by `-`. */
  function Add(lhs: Cell, rhs: Cell): (r: Cell)
    ensures Sub(r, rhs) == lhs
  {
    Cell(lhs.x + rhs.x, lhs.y + rhs.y)
  }

  /** The solver's `-`: componentwise subtraction, undone by `+`. */
  function Sub(lhs: Cell, rhs: Cell): (r: Cell)
    ensures Cell(r.x + rhs.x, r.y + rhs.y) == lhs
  {
    Cell(lhs.x - rhs.x, lhs.y - rhs.y)
  }

  /** Translating both cells by the same offset leaves their difference alone. */
  lemma SubTranslated(a: Cell, b: Cell, d: Cell)
    ensures Sub(Add(a, d), Add(b, d)) == Sub(a, b)
  {
  }

  /** Two cells with the same difference from a third are the same cell. */
  lemma SubCancel(a: Cell, b: Cell, p: Cell)
    requires Sub(a, p) == Sub(b, p)
    ensures a == b
  {
  }

  /** The solver's `Cell.Equals`: both coordinates agree. */
  function Equals(a: Cell, b: Cell): (r: bool)
    ensures r <==> a == b
  {
    a.x == b.x && a.y == b.y
  }

  /**
   * The column of `c` in axial coordinates: odd-row offset coordinates shift
   * every odd row half a cell to the right, so the axial column is the offset
   * column minus the number of odd rows between row 0 and `c`.
   */
  function AxialColumn(c: Cell): int
  {
    c.x - c.y / 2
  }

  /**
   * The solver's `Cell.rotate` (whose `clockwise` defaults to true): a
   * 60-degree turn about (0, 0). Neither truncating division loses anything:
   * the new row and column are exactly the closed forms below, which
   * `RotateAxial` reads as a linear map on axial coordinates.
   */
  function Rotate(c: Cell, clockwise: bool): (r: Cell)
    ensures clockwise ==> r.y == c.x + c.y / 2 + c.y % 2 && r.x == r.y / 2 - c.y
    ensures !clockwise ==> r.y == c.y / 2 - c.x && r.x == r.y / 2 + c.x - c.y / 2 + c.y
  {
    var dir := if clockwise then 1 else -1;
    var y2 := RotatedRow(c, clockwise);
    RowExact(c.x, c.y, dir);
    var x2 := Quot(2 * c.x + Odd(c.y) - dir * c.y * 3 - Odd(y2) * 2, 4);
    ColumnExact(c.x, c.y, dir, y2);
    Cell(x2, y2)
  }

  /** The row `Cell.rotate` sends `c` to. */
  function RotatedRow(c: Cell, clockwise: bool): int
  {
    var dir := if clockwise then 1 else -1;
    Quot(dir * 4 * c.x + dir * 2 * Odd(c.y) + 2 * c.y, 4)
  }

  /** The new row: `x + y / 2 + y % 2` clockwise and `y / 2 - x` counter-clockwise, exactly. */
  lemma RowExact(x: int, y: int, dir: int)
    requires dir == 1 || dir == -1
    ensures Quot(dir * 4 * x + dir * 2 * Odd(y) + 2 * y, 4) == if dir == 1 then x + y / 2 + y % 2 else y / 2 - x
  {
    if dir == 1 {
      assert dir * 4 * x + dir * 2 * Odd(y) + 2 * y == 4 * (x + y / 2 + y % 2);
      QuotExact(x + y / 2 + y % 2);
    } else {
      assert dir * 4 * x + dir * 2 * Odd(y) + 2 * y == 4 * (y / 2 - x);
      QuotExact(y / 2 - x);
    }
  }

  /** Given that row, the new axial column is `-y` clockwise and `x - y / 2 + y` counter-clockwise. */
  lemma ColumnExact(x: int, y: int, dir: int, y2: int)
    requires dir == 1 || dir == -1
    requires y2 == if dir == 1 then x + y / 2 + y % 2 else y / 2 - x
    ensures Quot(2 * x + Odd(y) - dir * y * 3 - Odd(y2) * 2, 4) - y2 / 2 == if dir == 1 then -y else x - y / 2 + y
  {
    var m, o := y / 2, y % 2;
    var h := y2 / 2;
    assert y2 == 2 * h + y2 % 2;
    if dir == 1 {
      var x2 := -y + h;
      assert 2 * x + Odd(y) - dir * y * 3 - Odd(y2) * 2 == 2 * (2 * x2);
      HalfOfEven(2 * x2, x2);
    } else {
      var x2 := x + m + o + h;
      assert 2 * x + Odd(y) - dir * y * 3 - Odd(y2) * 2 == 2 * (2 * x2);
      HalfOfEven(2 * x2, x2);
    }
  }

  /** `Quot(2 * t, 4)` of an even `t` is exact. */
  lemma HalfOfEven(t: int, e: int)
    requires t == 2 * e
    ensures Quot(2 * t, 4) == e
  {
    QuotExact(e);
  }

  lemma QuotExact(k: int)
    ensures Quot(4 * k, 4) == k
  {
  }

  /** The six neighbour offsets of (0, 0), in clockwise order. */
  const Neighbours: seq<Cell> := [Cell(1, 0), Cell(0, 1), Cell(-1, 1), Cell(-1, 0), Cell(-1, -1), Cell(0, -1)]

  /** `n` successive turns in the same direction. */
  function Rotations(c: Cell, clockwise: bool, n: nat): Cell
    decreases n
  {
    if n == 0 then c else Rotations(Rotate(c, clockwise), clockwise, n - 1)
  }

  /**
   * In axial coordinates (q, r), a clockwise turn is (q, r) -> (-r, q + r)
   * and a counter-clockwise turn is (q, r) -> (q + r, -q).
   */
  lemma RotateAxial(c: Cell, clockwise: bool)
    ensures var r := Rotate(c, clockwise);
      clockwise ==> AxialColumn(r) == -c.y && r.y == AxialColumn(c) + c.y
    ensures var r := Rotate(c, clockwise);
      !clockwise ==> AxialColumn(r) == AxialColumn(c) + c.y && r.y == -AxialColumn(c)
  {
  }

  lemma RotateZero(clockwise: bool)
    ensures Rotate(Zero, clockwise) == Zero
  {
  }

  /** A clockwise turn carries each neighbour offset to the next one in the cycle. */
  lemma RotateNeighboursClockwise(k: nat)
    requires k < 6
    ensures Rotate(Neighbours[k], true) == Neighbours[(k + 1) % 6]
  {
    if k == 0 {
    } else if k == 1 {
    } else if k == 2 {
    } else if k == 3 {
    } else if k == 4 {
    } else {
    }
  }

  /** A counter-clockwise turn carries each neighbour offset to the previous one. */
  lemma RotateNeighboursCounterClockwise(k: nat)
    requires k < 6
    ensures Rotate(Neighbours[k], false) == Neighbours[(k + 5) % 6]
  {
    if k == 0 {
    } else if k == 1 {
    } else if k == 2 {
    } else if k == 3 {
    } else if k == 4 {
    } else {
    }
  }

  /** Offset coordinates are determined by the axial column and the row. */
  lemma AxialInjective(a: Cell, b: Cell)
    requires AxialColumn(a) == AxialColumn(b) && a.y == b.y
    ensures a == b
  {
  }

  /** The declared south-east constant is not among the offsets the rotation cycles through. */
  lemma SouthEastIsNotANeighbour()
    ensures SouthEast !in Neighbours
    ensures Rotate(East, true) == Cell(0, 1) != SouthEast
  {
  }

  /** Turning one way and then the other gives the cell back. */
  lemma RotateInverse(c: Cell, clockwise: bool)
    ensures Rotate(Rotate(c, clockwise), !clockwise) == c
  {
    RotateAxial(c, clockwise);
    RotateAxial(Rotate(c, clockwise), !clockwise);
    AxialInjective(Rotate(Rotate(c, clockwise), !clockwise), c);
  }

  /** Three turns in the same direction negate both axial coordinates. */
  lemma RotateThreeTimes(c: Cell, clockwise: bool)
    ensures var r3 := Rotate(Rotate(Rotate(c, clockwise), clockwise), clockwise);
      AxialColumn(r3) == -AxialColumn(c) && r3.y == -c.y
  {
    var r1 := Rotate(c, clockwise);
    var r2 := Rotate(r1, clockwise);
    RotateAxial(c, clockwise);
    RotateAxial(r1, clockwise);
    RotateAxial(r2, clockwise);
  }

  /** Six turns in the same direction give the cell back. */
  lemma RotateSixTimes(c: Cell, clockwise: bool)
    ensures Rotations(c, clockwise, 6) == c
  {
    var r3 := Rotate(Rotate(Rotate(c, clockwise), clockwise), clockwise);
    var r6 := Rotate(Rotate(Rotate(r3, clockwise), clockwise), clockwise);
    RotateThreeTimes(c, clockwise);
    RotateThreeTimes(r3, clockwise);
    AxialInjective(r6, c);
    assert Rotations(c, clockwise, 6) == r6;
  }
}
