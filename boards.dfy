/**
 * The occupancy board: a flat array of `width * height` flags, cell (x, y)
 * stored at index `x + y * width`, plus the score field.
 */
module Boards {
  import opened Cells

  /** The array index the source computes for `c`, without any bounds check. */
  function Index(c: Cell, width: int): int
  {
    c.x + c.y * width
  }

  predicate InBounds(c: Cell, width: int, height: int)
  {
    0 <= c.x < width && 0 <= c.y < height
  }

  /** An in-bounds cell has an index inside the flat array. */
  lemma InBoundsIndex(c: Cell, width: int, height: int)
    requires InBounds(c, width, height)
    ensures 0 <= Index(c, width) < width * height
  {
    RowMajor(c.x, c.y, width, height);
  }

  /** Row-major indexing of a `w` by `h` grid stays inside the grid. */
  lemma RowMajor(x: int, y: int, w: int, h: int)
    requires 0 <= x < w && 0 <= y < h
    ensures 0 <= x + y * w < w * h
  {
    var d := h - y - 1;
    assert h * w == y * w + w + d * w;
    assert 0 <= y * w && 0 <= d * w;
  }

  /** Two in-bounds cells share an index only if they are the same cell. */
  lemma InBoundsIndexInjective(a: Cell, b: Cell, width: int, height: int)
    requires InBounds(a, width, height) && InBounds(b, width, height)
    requires Index(a, width) == Index(b, width)
    ensures a == b
  {
    RowOrder(a, b, width);
    RowOrder(b, a, width);
  }

  /** Within the columns of the board, a lower row has the larger index. */
  lemma RowOrder(a: Cell, b: Cell, width: int)
    ensures 0 <= a.x < width && 0 <= b.x && a.y < b.y ==> Index(a, width) < Index(b, width)
  {
    if 0 <= a.x < width && 0 <= b.x && a.y < b.y {
      var k := b.y - a.y;
      assert b.y * width == a.y * width + k * width;
      assert k * width >= width by {
        assert (k - 1) * width >= 0;
      }
    }
  }

  /** One step of `contains`: `c` is inside the board and its flag is clear. */
  predicate Fits(data: seq<bool>, width: int, height: int, c: Cell)
    requires |data| == width * height
  {
    InBounds(c, width, height) && (InBoundsIndex(c, width, height); !data[Index(c, width)])
  }

  /**
   * What `contains` answers: every listed cell fits. A unit the board
   * contains can be locked in later, as all its members then have indices
   * inside the array.
   */
  function AllFit(data: seq<bool>, width: int, height: int, cells: seq<Cell>): (r: bool)
    requires |data| == width * height
    ensures cells == [] ==> r
    ensures r ==> Indexable(data, width, cells)
  {
    var r := forall i :: 0 <= i < |cells| ==> Fits(data, width, height, cells[i]);
    assert r ==> Indexable(data, width, cells) by {
      if r {
        forall i | 0 <= i < |cells| ensures 0 <= Index(cells[i], width) < |data| {
          InBoundsIndex(cells[i], width, height);
        }
      }
    }
    r
  }

  /** Every listed cell has an index inside the array, so `place` does not fail. */
  predicate Indexable(data: seq<bool>, width: int, cells: seq<Cell>)
  {
    forall i :: 0 <= i < |cells| ==> 0 <= Index(cells[i], width) < |data|
  }

  /**
   * The flags after `place` has set the flag of each listed cell in turn:
   * the flag of every listed cell is set and no flag is cleared.
   */
  function Placed(data: seq<bool>, width: int, cells: seq<Cell>): (r: seq<bool>)
    requires Indexable(data, width, cells)
    ensures |r| == |data|
    ensures forall i :: 0 <= i < |cells| ==> r[Index(cells[i], width)]
    ensures forall k :: 0 <= k < |data| && data[k] ==> r[k]
    decreases |cells|
  {
    if cells == [] then data
    else Placed(data, width, cells[..|cells| - 1])[Index(cells[|cells| - 1], width) := true]
  }

  /**
   * After `place`, an index is set exactly when it was set before or some
   * listed cell maps to it.
   */
  lemma {:induction false} PlacedAt(data: seq<bool>, width: int, cells: seq<Cell>, k: int)
    requires Indexable(data, width, cells)
    requires 0 <= k < |data|
    ensures Placed(data, width, cells)[k] <==>
      data[k] || exists i :: 0 <= i < |cells| && Index(cells[i], width) == k
    decreases |cells|
  {
    if cells != [] {
      var init := cells[..|cells| - 1];
      PlacedAt(data, width, init, k);
      if exists i :: 0 <= i < |cells| && Index(cells[i], width) == k {
        var i :| 0 <= i < |cells| && Index(cells[i], width) == k;
        if i < |cells| - 1 {
          assert Index(init[i], width) == k;
        }
      }
      if exists i :: 0 <= i < |init| && Index(init[i], width) == k {
        var i :| 0 <= i < |init| && Index(init[i], width) == k;
        assert Index(cells[i], width) == k;
      }
    }
  }

  /** Placing the same cells a second time changes nothing. */
  lemma PlacedIdempotent(data: seq<bool>, width: int, cells: seq<Cell>)
    requires Indexable(data, width, cells)
    ensures Indexable(Placed(data, width, cells), width, cells)
    ensures Placed(Placed(data, width, cells), width, cells) == Placed(data, width, cells)
  {
    var once := Placed(data, width, cells);
    var twice := Placed(once, width, cells);
    forall k | 0 <= k < |data| ensures twice[k] == once[k] {
      PlacedAt(data, width, cells, k);
      PlacedAt(once, width, cells, k);
    }
  }

  /** After placing in-bounds cells, none of them fits any more. */
  lemma PlacedOccupies(data: seq<bool>, width: int, height: int, cells: seq<Cell>, i: int)
    requires |data| == width * height && Indexable(data, width, cells)
    requires 0 <= i < |cells| && InBounds(cells[i], width, height)
    ensures !Fits(Placed(data, width, cells), width, height, cells[i])
  {
    InBoundsIndex(cells[i], width, height);
    PlacedAt(data, width, cells, Index(cells[i], width));
  }

  /** An in-bounds cell not in the list keeps its flag. */
  lemma PlacedKeepsOthers(data: seq<bool>, width: int, height: int, cells: seq<Cell>, c: Cell)
    requires |data| == width * height && Indexable(data, width, cells)
    requires forall i :: 0 <= i < |cells| ==> InBounds(cells[i], width, height)
    requires InBounds(c, width, height) && c !in cells
    ensures Fits(Placed(data, width, cells), width, height, c) == Fits(data, width, height, c)
  {
    InBoundsIndex(c, width, height);
    PlacedAt(data, width, cells, Index(c, width));
    if exists i :: 0 <= i < |cells| && Index(cells[i], width) == Index(c, width) {
      var i :| 0 <= i < |cells| && Index(cells[i], width) == Index(c, width);
      InBoundsIndexInjective(cells[i], c, width, height);
    }
  }

  /** `contains` answers the conjunction over a concatenation part by part. */
  lemma AllFitAppend(data: seq<bool>, width: int, height: int, a: seq<Cell>, b: seq<Cell>)
    requires |data| == width * height
    ensures AllFit(data, width, height, a + b) <==> AllFit(data, width, height, a) && AllFit(data, width, height, b)
  {
    if AllFit(data, width, height, a) && AllFit(data, width, height, b) {
      forall i | 0 <= i < |a + b| ensures Fits(data, width, height, (a + b)[i]) {
        if i >= |a| {
          assert (a + b)[i] == b[i - |a|];
        }
      }
    }
    if AllFit(data, width, height, a + b) {
      forall i | 0 <= i < |a| ensures Fits(data, width, height, a[i]) {
        assert (a + b)[i] == a[i];
      }
      forall i | 0 <= i < |b| ensures Fits(data, width, height, b[i]) {
        assert (a + b)[|a| + i] == b[i];
      }
    }
  }

  class Board {
    var data: array<bool>
    const width: int
    const height: int
    var score: int

    ghost predicate Valid()
      reads this
    {
      0 <= width && 0 <= height && data.Length == width * height
    }

    constructor (width: int, height: int, score: int)
      requires 0 <= width && 0 <= height
      ensures Valid() && fresh(data)
      ensures this.width == width && this.height == height && this.score == score
      ensures forall k :: 0 <= k < data.Length ==> !data[k]
    {
      this.score := score;
      this.width := width;
      this.height := height;
      data := new bool[width * height](_ => false);
    }

    /** Replace the flags with a fresh, all-free array of the same size. */
    method Clear()
      requires Valid()
      modifies this
      ensures Valid() && fresh(data) && score == old(score)
      ensures forall k :: 0 <= k < data.Length ==> !data[k]
    {
      data := new bool[width * height](_ => false);
    }

    /** `contains`: true iff every listed cell is inside the board and free. */
    method Contains(cells: seq<Cell>) returns (contained: bool)
      requires Valid()
      ensures contained == AllFit(data[..], width, height, cells)
    {
      for i := 0 to |cells|
        invariant AllFit(data[..], width, height, cells[..i])
      {
        var cell := cells[i];
        var fits := cell.x >= 0 && cell.y >= 0 && cell.x < width && cell.y < height;
        if fits {
          InBoundsIndex(cell, width, height);
          fits := !data[cell.x + cell.y * width];
        }
        if !fits {
          return false;
        }
        assert cells[..i + 1] == cells[..i] + [cell];
        AllFitAppend(data[..], width, height, cells[..i], [cell]);
      }
      assert cells[..|cells|] == cells;
      return true;
    }

    /** `place`: set the flag at `x + y * width` of each listed cell in turn. */
    method Place(cells: seq<Cell>)
      requires Valid() && Indexable(data[..], width, cells)
      modifies data
      ensures data[..] == Placed(old(data[..]), width, cells)
    {
      for i := 0 to |cells|
        invariant Indexable(old(data[..]), width, cells[..i])
        invariant data[..] == Placed(old(data[..]), width, cells[..i])
      {
        var cell := cells[i];
        assert cells[..i + 1][..i] == cells[..i];
        data[cell.x + cell.y * width] := true;
      }
      assert cells[..|cells|] == cells;
    }
  }
}
