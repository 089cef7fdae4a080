/**
 * A unit: the list of member cells of a piece together with its pivot.
 * Every transform builds a new unit.
 */
module Units {
  import opened Cells

  datatype Unit = Unit(members: seq<Cell>, pivot: Cell)

  /** The member cells as a set: order and repetitions forgotten. */
  function MemberSet(u: Unit): set<Cell>
  {
    set c | c in u.members
  }

  /** `List.Contains` with the structural `Cell.Equals`. */
  function ContainsCell(cells: seq<Cell>, c: Cell): (r: bool)
    ensures r <==> c in cells
    decreases |cells|
  {
    if cells == [] then false
    else Equals(cells[0], c) || ContainsCell(cells[1..], c)
  }

  /** `members.All(i => other.Contains(i))`: every listed cell occurs in `other`. */
  function AllContained(members: seq<Cell>, other: seq<Cell>): (r: bool)
    ensures r <==> forall i :: 0 <= i < |members| ==> members[i] in other
    decreases |members|
  {
    if members == [] then true
    else ContainsCell(other, members[0]) && AllContained(members[1..], other)
  }

  /**
   * The solver's `Unit.Equals`: the pivots agree and each member of `u`
   * is a member of `v`. Only this one direction of inclusion is checked.
   */
  function UnitEquals(u: Unit, v: Unit): (r: bool)
    ensures r <==> u.pivot == v.pivot && MemberSet(u) <= MemberSet(v)
  {
    IncludedAsSets(u, v);
    Equals(u.pivot, v.pivot) && AllContained(u.members, v.members)
  }

  lemma IncludedAsSets(u: Unit, v: Unit)
    ensures MemberSet(u) <= MemberSet(v) <==> forall i :: 0 <= i < |u.members| ==> u.members[i] in v.members
  {
    if forall i :: 0 <= i < |u.members| ==> u.members[i] in v.members {
      forall c | c in MemberSet(u) ensures c in MemberSet(v) {
        var i :| 0 <= i < |u.members| && u.members[i] == c;
      }
    }
    if MemberSet(u) <= MemberSet(v) {
      forall i | 0 <= i < |u.members| ensures u.members[i] in v.members {
        assert u.members[i] in MemberSet(u);
      }
    }
  }

  /** The solver's `Unit.move`: translate the pivot and every member by `direction`. */
  function Move(u: Unit, direction: Cell): (r: Unit)
    ensures |r.members| == |u.members|
  {
    Unit(seq(|u.members|, i requires 0 <= i < |u.members| => Add(u.members[i], direction)),
         Add(u.pivot, direction))
  }

  /** The solver's `Unit.Clone`: a move by the zero offset. */
  function Clone(u: Unit): (r: Unit)
    ensures r == u
  {
    Move(u, Zero)
  }

  /** The solver's `Unit.rotate`: turn every member 60 degrees about the pivot. */
  function Rotate(u: Unit, clockwise: bool): (r: Unit)
    ensures r.pivot == u.pivot && |r.members| == |u.members|
  {
    Unit(seq(|u.members|, i requires 0 <= i < |u.members| =>
           Add(Cells.Rotate(Sub(u.members[i], u.pivot), clockwise), u.pivot)),
         u.pivot)
  }

  /** A move adds the offset to the pivot and to each member, in order. */
  lemma MoveTranslates(u: Unit, direction: Cell)
    ensures Move(u, direction).pivot == Add(u.pivot, direction)
    ensures forall i :: 0 <= i < |u.members| ==> Move(u, direction).members[i] == Add(u.members[i], direction)
  {
  }

  /** Moving back by the opposite offset restores the unit exactly. */
  lemma MoveInverse(u: Unit, direction: Cell)
    ensures Move(Move(u, direction), Sub(Zero, direction)) == u
  {
    var back := Move(Move(u, direction), Sub(Zero, direction));
    assert back.members == u.members;
  }

  /** Two moves are one move by the sum of the offsets. */
  lemma MoveCompose(u: Unit, a: Cell, b: Cell)
    ensures Move(Move(u, a), b) == Move(u, Add(a, b))
  {
    assert Move(Move(u, a), b).members == Move(u, Add(a, b)).members;
  }

  /** A clone equals the original in both directions of `Unit.Equals`. */
  lemma CloneEquals(u: Unit)
    ensures UnitEquals(Clone(u), u) && UnitEquals(u, Clone(u))
  {
  }

  /** `Unit.Equals` is reflexive and transitive. */
  lemma UnitEqualsPreorder(u: Unit, v: Unit, w: Unit)
    ensures UnitEquals(u, u)
    ensures UnitEquals(u, v) && UnitEquals(v, w) ==> UnitEquals(u, w)
  {
  }

  /** `Unit.Equals` is not symmetric: a unit equals any larger unit with the same pivot. */
  lemma UnitEqualsNotSymmetric()
    ensures var u := Unit([Zero], Zero);
      var v := Unit([Zero, East], Zero);
      UnitEquals(u, v) && !UnitEquals(v, u)
  {
    var u := Unit([Zero], Zero);
    var v := Unit([Zero, East], Zero);
    assert East in MemberSet(v) && East !in MemberSet(u);
  }

  /** In both directions, `Unit.Equals` is equality of pivots and of member sets. */
  lemma UnitEqualsBothWays(u: Unit, v: Unit)
    ensures UnitEquals(u, v) && UnitEquals(v, u) <==> u.pivot == v.pivot && MemberSet(u) == MemberSet(v)
  {
  }

  /** A turn sends each member's offset from the pivot through `Cell.rotate`. */
  lemma RotateAboutPivot(u: Unit, clockwise: bool)
    ensures forall i :: 0 <= i < |u.members| ==>
      Sub(Rotate(u, clockwise).members[i], u.pivot) == Cells.Rotate(Sub(u.members[i], u.pivot), clockwise)
  {
  }

  /** Turning one way and then the other restores the unit exactly. */
  lemma RotateInverse(u: Unit, clockwise: bool)
    ensures Rotate(Rotate(u, clockwise), !clockwise) == u
  {
    var r := Rotate(u, clockwise);
    var back := Rotate(r, !clockwise);
    forall i | 0 <= i < |u.members| ensures back.members[i] == u.members[i] {
      var d := Sub(u.members[i], u.pivot);
      assert Sub(r.members[i], u.pivot) == Cells.Rotate(d, clockwise);
      Cells.RotateInverse(d, clockwise);
    }
    assert back.members == u.members;
  }

  /** Rotation about the pivot commutes with translation. */
  lemma RotateCommutesWithMove(u: Unit, direction: Cell, clockwise: bool)
    ensures Rotate(Move(u, direction), clockwise) == Move(Rotate(u, clockwise), direction)
  {
    var a := Rotate(Move(u, direction), clockwise);
    var b := Move(Rotate(u, clockwise), direction);
    forall i | 0 <= i < |u.members| ensures a.members[i] == b.members[i] {
      var d := Sub(u.members[i], u.pivot);
      SubTranslated(u.members[i], u.pivot, direction);
      assert a.members[i] == Add(Cells.Rotate(d, clockwise), Add(u.pivot, direction));
      assert b.members[i] == Add(Add(Cells.Rotate(d, clockwise), u.pivot), direction);
    }
    assert a.members == b.members;
  }

  /** `n` successive `rotate` calls on a unit, all in the same direction. */
  function Rotations(u: Unit, clockwise: bool, n: nat): (r: Unit)
    ensures r.pivot == u.pivot && |r.members| == |u.members|
    decreases n
  {
    if n == 0 then u else Rotations(Rotate(u, clockwise), clockwise, n - 1)
  }

  /** After `n` turns, each member's offset from the pivot has been turned `n` times about (0, 0). */
  lemma {:induction false} RotationsAboutPivot(u: Unit, clockwise: bool, n: nat, i: nat)
    requires i < |u.members|
    ensures Sub(Rotations(u, clockwise, n).members[i], u.pivot) == Cells.Rotations(Sub(u.members[i], u.pivot), clockwise, n)
    decreases n
  {
    if n > 0 {
      var r := Rotate(u, clockwise);
      RotationsAboutPivot(r, clockwise, n - 1, i);
      RotateAboutPivot(u, clockwise);
    }
  }

  /** Six turns bring member `i` back to where it was. */
  lemma MemberSixTimes(u: Unit, clockwise: bool, i: nat)
    requires i < |u.members|
    ensures Rotations(u, clockwise, 6).members[i] == u.members[i]
  {
    RotationsAboutPivot(u, clockwise, 6, i);
    Cells.RotateSixTimes(Sub(u.members[i], u.pivot), clockwise);
    SubCancel(Rotations(u, clockwise, 6).members[i], u.members[i], u.pivot);
  }

  /** Six turns in the same direction about the pivot give the unit back exactly. */
  lemma RotateSixTimes(u: Unit, clockwise: bool)
    ensures Rotations(u, clockwise, 6) == u
  {
    var r := Rotations(u, clockwise, 6);
    forall i | 0 <= i < |u.members| ensures r.members[i] == u.members[i] {
      MemberSixTimes(u, clockwise, i);
    }
    assert r.members == u.members;
  }
}
