/**
 * A piece: the unit currently falling and the board it falls on. A move or
 * turn that fits is adopted; one that does not locks the current unit in.
 */
module Pieces {
  import opened Cells
  import Units
  import opened Boards

  class Piece {
    var unit: Units.Unit
    const board: Board

    constructor (board: Board, unit: Units.Unit)
      ensures this.board == board && this.unit == Units.Clone(unit) && this.unit == unit
    {
      this.unit := Units.Clone(unit);
      this.board := board;
    }

    /**
     * `update`: adopt `newUnit` when the board contains it; otherwise place
     * the current unit on the board and keep it. The answer is whether
     * `newUnit` fitted. On the locking path the model requires every current
     * member to index inside the board's array; the source checks nothing
     * there (see `Board.Place`).
     */
    method Update(newUnit: Units.Unit) returns (contained: bool)
      requires board.Valid()
      requires AllFit(board.data[..], board.width, board.height, newUnit.members)
        || Indexable(board.data[..], board.width, unit.members)
      modifies this, board.data
      ensures contained == AllFit(old(board.data[..]), board.width, board.height, newUnit.members)
      ensures contained ==> unit == newUnit && board.data[..] == old(board.data[..])
      ensures !contained ==>
        unit == old(unit) && board.data[..] == Placed(old(board.data[..]), board.width, old(unit).members)
      ensures board.Valid() && board.data == old(board.data) && board.score == old(board.score)
    {
      contained := board.Contains(newUnit.members);
      if contained {
        unit := newUnit;
      } else {
        board.Place(unit.members);
      }
    }

    /** `rotate`: try the unit turned about its pivot. */
    method Rotate(clockwise: bool) returns (contained: bool)
      requires board.Valid()
      requires AllFit(board.data[..], board.width, board.height, Units.Rotate(unit, clockwise).members)
        || Indexable(board.data[..], board.width, unit.members)
      modifies this, board.data
      ensures contained == AllFit(old(board.data[..]), board.width, board.height, Units.Rotate(old(unit), clockwise).members)
      ensures contained ==> unit == Units.Rotate(old(unit), clockwise) && board.data[..] == old(board.data[..])
      ensures !contained ==>
        unit == old(unit) && board.data[..] == Placed(old(board.data[..]), board.width, old(unit).members)
      ensures board.Valid() && board.data == old(board.data) && board.score == old(board.score)
    {
      contained := Update(Units.Rotate(unit, clockwise));
    }

    /** `move`: try the unit translated by `direction`. */
    method Move(direction: Cell) returns (contained: bool)
      requires board.Valid()
      requires AllFit(board.data[..], board.width, board.height, Units.Move(unit, direction).members)
        || Indexable(board.data[..], board.width, unit.members)
      modifies this, board.data
      ensures contained == AllFit(old(board.data[..]), board.width, board.height, Units.Move(old(unit), direction).members)
      ensures contained ==> unit == Units.Move(old(unit), direction) && board.data[..] == old(board.data[..])
      ensures !contained ==>
        unit == old(unit) && board.data[..] == Placed(old(board.data[..]), board.width, old(unit).members)
      ensures board.Valid() && board.data == old(board.data) && board.score == old(board.score)
    {
      contained := Update(Units.Move(unit, direction));
    }
  }

  /** After locking a unit that fitted, each of its members is occupied. */
  lemma LockedUnitOccupies(data: seq<bool>, width: int, height: int, u: Units.Unit)
    requires |data| == width * height
    requires AllFit(data, width, height, u.members)
    ensures Indexable(data, width, u.members)
    ensures forall i :: 0 <= i < |u.members| ==> !Fits(Placed(data, width, u.members), width, height, u.members[i])
  {
    forall i | 0 <= i < |u.members| ensures !Fits(Placed(data, width, u.members), width, height, u.members[i]) {
      PlacedOccupies(data, width, height, u.members, i);
    }
  }
}
