/** The 3000 x 3000 canvas that cropnet/cropnet/make_feat_maps.py allocates
    with `np.zeros` and fills by slice assignment, one tile per directory
    entry. The canvas is a class over a two-dimensional array; what it holds
    is specified by `Painted`, a function of the tiles placed so far. */
module RegionMaps {
  import opened BBoxCodec
  import opened ChipGeometry

  /** Side of the square canvas, in cells. */
  const Side := 3000

  /** One slice assignment `canvas[x0:x1, y0:y1] = tile`. The tile is
      indexed [row][column] like the canvas slice it lands in; `cols` is its
      column count, which an array with no rows still has. */
  datatype Placement<T> = Placement(box: BBox, tile: seq<seq<T>>, cols: nat)

  function Min(a: int, b: int): int {
    if a <= b then a else b
  }

  /** The length of the slice [lo:hi] of one canvas axis: both bounds are
      clipped to the axis, and a slice that ends before it starts is
      empty. */
  function SliceLen(lo: nat, hi: nat): (n: nat)
    ensures n <= Side
    ensures lo <= hi <= Side ==> n == hi - lo
    ensures lo < Side < hi ==> n == Side - lo
    ensures hi <= lo || Side <= lo ==> n == 0
  {
    var l, h := Min(lo, Side), Min(hi, Side);
    if h < l then 0 else h - l
  }

  /** The slice assignment is accepted: the bounds are non-negative, the
      tile has as many rows as the clipped slice and as many columns, and
      every row is that long. numpy raises on any other shape. */
  predicate Fits<T>(box: BBox, tile: seq<seq<T>>, cols: nat) {
    && NonNegative(box)
    && |tile| == SliceLen(box.x0, box.x1)
    && cols == SliceLen(box.y0, box.y1)
    && forall r :: 0 <= r < |tile| ==> |tile[r]| == cols
  }

  /** A box inside the canvas takes a tile of exactly its own shape. */
  lemma FitsInside<T>(box: BBox, tile: seq<seq<T>>, cols: nat)
    requires 0 <= box.x0 <= box.x1 <= Side && 0 <= box.y0 <= box.y1 <= Side
    requires |tile| == Width(box) && cols == Height(box)
    requires forall r :: 0 <= r < |tile| ==> |tile[r]| == cols
    ensures Fits(box, tile, cols)
  {
  }

  /** Cell (i, j) of the canvas lies in the slice [x0:x1, y0:y1]. */
  predicate Covers(box: BBox, i: int, j: int) {
    && 0 <= i < Side && 0 <= j < Side
    && box.x0 <= i < box.x1 && box.y0 <= j < box.y1
  }

  predicate AllFit<T>(ps: seq<Placement<T>>) {
    forall k :: 0 <= k < |ps| ==> Fits(ps[k].box, ps[k].tile, ps[k].cols)
  }

  /** The value of cell (i, j) once the placements ps have been made in
      order on a canvas filled with `fill`: the last placement covering the
      cell decides it, and an uncovered cell keeps the fill. */
  function Painted<T>(ps: seq<Placement<T>>, fill: T, i: int, j: int): T
    requires AllFit(ps)
    decreases |ps|
  {
    if ps == [] then fill
    else
      var p := ps[|ps| - 1];
      if Covers(p.box, i, j) then p.tile[i - p.box.x0][j - p.box.y0]
      else Painted(ps[..|ps| - 1], fill, i, j)
  }

  /** A single placement paints the cells it covers with its tile. */
  lemma PaintedOne<T>(p: Placement<T>, fill: T, i: int, j: int, r: nat, c: nat)
    requires Fits(p.box, p.tile, p.cols) && Covers(p.box, i, j)
    requires r == i - p.box.x0 && c == j - p.box.y0
    ensures r < |p.tile| && c < |p.tile[r]|
    ensures Painted([p], fill, i, j) == p.tile[r][c]
  {
  }

  /** Where tiles overlap, the one placed last wins: a cell shows placement
      k's value when no later placement covers it. */
  lemma {:induction false} LastCoverWins<T>(ps: seq<Placement<T>>, fill: T, k: int, i: int, j: int)
    requires AllFit(ps)
    requires 0 <= k < |ps| && Covers(ps[k].box, i, j)
    requires forall m :: k < m < |ps| ==> !Covers(ps[m].box, i, j)
    ensures Painted(ps, fill, i, j) == ps[k].tile[i - ps[k].box.x0][j - ps[k].box.y0]
    decreases |ps|
  {
    if k < |ps| - 1 {
      var init := ps[..|ps| - 1];
      assert init[k] == ps[k];
      LastCoverWins(init, fill, k, i, j);
    }
  }

  /** A cell no placement covers keeps the canvas's initial value. */
  lemma {:induction false} UncoveredKeepsFill<T>(ps: seq<Placement<T>>, fill: T, i: int, j: int)
    requires AllFit(ps)
    requires forall m :: 0 <= m < |ps| ==> !Covers(ps[m].box, i, j)
    ensures Painted(ps, fill, i, j) == fill
    decreases |ps|
  {
    if ps != [] {
      var init := ps[..|ps| - 1];
      assert forall m :: 0 <= m < |init| ==> init[m] == ps[m];
      UncoveredKeepsFill(init, fill, i, j);
    }
  }

  /** The canvas. `placed` records the slice assignments made so far. */
  class RegionMap<T> {
    const cells: array2<T>
    const fill: T
    ghost var placed: seq<Placement<T>>

    ghost predicate Valid()
      reads this, cells
    {
      && cells.Length0 == Side && cells.Length1 == Side
      && AllFit(placed)
      && forall i, j :: 0 <= i < Side && 0 <= j < Side ==> cells[i, j] == Painted(placed, fill, i, j)
    }

    /** `np.zeros((3000, 3000))`: every cell holds `fill`. */
    constructor (fill: T)
      ensures Valid() && fresh(cells)
      ensures this.fill == fill && placed == []
      ensures forall i, j :: 0 <= i < Side && 0 <= j < Side ==> cells[i, j] == fill
    {
      this.fill := fill;
      cells := new T[Side, Side]((i, j) => fill);
      placed := [];
    }

    /** `canvas[x0:x1, y0:y1] = tile`: the slice becomes the tile element for
        element and every other cell is left as it was. */
    method PlaceTile(box: BBox, tile: seq<seq<T>>, cols: nat)
      requires Valid() && Fits(box, tile, cols)
      modifies this, cells
      ensures Valid()
      ensures placed == old(placed) + [Placement(box, tile, cols)]
      ensures forall i, j :: Covers(box, i, j) ==> cells[i, j] == tile[i - box.x0][j - box.y0]
      ensures forall i, j :: 0 <= i < Side && 0 <= j < Side && !Covers(box, i, j) ==>
        cells[i, j] == old(cells[i, j])
    {
      forall i, j | 0 <= i < Side && 0 <= j < Side && box.x0 <= i < box.x1 && box.y0 <= j < box.y1 {
        cells[i, j] := tile[i - box.x0][j - box.y0];
      }
      placed := placed + [Placement(box, tile, cols)];
      assert placed[..|placed| - 1] == old(placed);
    }
  }
}
