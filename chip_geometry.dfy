/** The integer box arithmetic of cropnet/utils.py: the box of a square
    chip, the origin shift `save_tb_chips` applies before naming its output,
    and the row-major reshape `get_features` applies to a model's per-pixel
    features. */
module ChipGeometry {
  import opened Wrappers
  import opened PosixPath
  import opened BBoxCodec

  /** Rows a box spans (x indexes the first axis of a raster). */
  function Width(b: BBox): int {
    b.x1 - b.x0
  }

  /** Columns a box spans. */
  function Height(b: BBox): int {
    b.y1 - b.y0
  }

  /** `get_chip_bbox(chip_x, chip_y, chip_size)`: the square of side
      chip_size whose corner is (chip_x, chip_y). */
  function ChipBBox(chipX: int, chipY: int, chipSize: int): (b: BBox)
    ensures b.x0 == chipX && b.y0 == chipY
    ensures Width(b) == chipSize && Height(b) == chipSize
  {
    BBox(chipX, chipY, chipX + chipSize, chipY + chipSize)
  }

  /** A box moved by dx along the rows and dy along the columns. */
  function Shifted(b: BBox, dx: int, dy: int): BBox {
    BBox(b.x0 + dx, b.y0 + dy, b.x1 + dx, b.y1 + dy)
  }

  /** The shift of `save_tb_chips`: the box is copied into a list whose four
      entries are bumped in place, x0 and x1 by `bbox_src[0]`, y0 and y1 by
      `bbox_src[1]`. */
  method SaveTbChipsBox(bbox: BBox, bboxSrc: BBox) returns (r: BBox)
    ensures r == Shifted(bbox, bboxSrc.x0, bboxSrc.y0)
    ensures Width(r) == Width(bbox) && Height(r) == Height(bbox)
  {
    var l := [bbox.x0, bbox.y0, bbox.x1, bbox.y1];
    l := l[0 := l[0] + bboxSrc.x0];
    l := l[1 := l[1] + bboxSrc.y0];
    l := l[2 := l[2] + bboxSrc.x0];
    l := l[3 := l[3] + bboxSrc.y0];
    r := BBox(l[0], l[1], l[2], l[3]);
  }

  /** Where `save_tb_chips` writes: the chips name of the shifted box. */
  function SaveTbChipsPath(hlsDir: string, bbox: BBox, bboxSrc: BBox): string {
    TbChipsPath(hlsDir, Shifted(bbox, bboxSrc.x0, bboxSrc.y0))
  }

  /** What `save_tb_chips` writes is found again by `load_tb_chips` with the
      shifted box, and its name decodes to that box unless a coordinate went
      negative. */
  lemma SavedChipsDecode(hlsDir: string, bbox: BBox, bboxSrc: BBox)
    ensures var moved := Shifted(bbox, bboxSrc.x0, bboxSrc.y0);
      && SaveTbChipsPath(hlsDir, bbox, bboxSrc) == TbChipsPath(hlsDir, moved)
      && (NonNegative(moved) ==> Decode(SaveTbChipsPath(hlsDir, bbox, bboxSrc)) == Success(moved))
      && (!NonNegative(moved) ==> Decode(SaveTbChipsPath(hlsDir, bbox, bboxSrc)).Failure?)
  {
    var moved := Shifted(bbox, bboxSrc.x0, bboxSrc.y0);
    DecodeTbChipsPath(hlsDir, moved);
    if !NonNegative(moved) {
      NegativeNotDecodable(moved);
    }
  }

  /** Why numpy refuses a reshape. */
  datatype ReshapeError = NegativeSize(sizeX: int, sizeY: int) | SizeMismatch(rows: nat, cells: int)

  /** The reshape of `get_features`: N per-pixel feature rows become a grid
      of size_y rows of size_x cells, filled in row-major order. It fails
      when a size is negative or N is not size_x * size_y. */
  function GetFeatures<T>(features: seq<T>, bbox: BBox): (r: Result<seq<seq<T>>, ReshapeError>)
    ensures r.Success? <==> 0 <= Width(bbox) && 0 <= Height(bbox) && |features| == Width(bbox) * Height(bbox)
    ensures r.Success? ==>
      && |r.value| == Height(bbox)
      && (forall y :: 0 <= y < Height(bbox) ==> |r.value[y]| == Width(bbox))
  {
    var sizeX, sizeY := Width(bbox), Height(bbox);
    if sizeX < 0 || sizeY < 0 then Failure(NegativeSize(sizeX, sizeY))
    else if |features| != sizeX * sizeY then Failure(SizeMismatch(|features|, sizeX * sizeY))
    else
      Success(seq(sizeY, y requires 0 <= y < sizeY =>
        RowBounds(y, sizeX, sizeY);
        Row(features, y * sizeX, sizeX)))
  }

  /** A row of the reshaped grid: size_x feature rows from a given start. */
  function Row<T>(features: seq<T>, start: nat, sizeX: nat): (row: seq<T>)
    requires start + sizeX <= |features|
    ensures |row| == sizeX
    ensures forall x :: 0 <= x < sizeX ==> row[x] == features[start + x]
  {
    features[start..start + sizeX]
  }

  lemma RowBounds(y: nat, sizeX: nat, sizeY: nat)
    requires y < sizeY
    ensures y * sizeX + sizeX <= sizeX * sizeY
  {
    assert y * sizeX + sizeX == (y + 1) * sizeX;
    MulMono(y + 1, sizeY, sizeX);
  }

  lemma MulMono(a: nat, b: nat, c: nat)
    requires a <= b
    ensures a * c <= b * c
  {
  }

  /** Grid cell (y, x) holds flat feature row y * size_x + x. */
  lemma GridCell<T>(features: seq<T>, bbox: BBox, y: int, x: int)
    requires GetFeatures(features, bbox).Success?
    requires 0 <= y < Height(bbox) && 0 <= x < Width(bbox)
    ensures y * Width(bbox) + x < |features|
    ensures GetFeatures(features, bbox).value[y][x] == features[y * Width(bbox) + x]
  {
    var w: nat, h: nat := Width(bbox), Height(bbox);
    RowBounds(y, w, h);
    assert GetFeatures(features, bbox).value[y] == Row(features, y * w, w);
  }

  /** The rows of grid are the flat features cut into consecutive runs of
      w: row y holds flat rows y * w up to (y + 1) * w. */
  ghost predicate RowMajor<T>(grid: seq<seq<T>>, features: seq<T>, w: nat) {
    forall y :: 0 <= y < |grid| ==> y * w + w <= |features| && grid[y] == features[y * w..y * w + w]
  }

  /** The reshaped grid is row-major. */
  lemma GridRowMajor<T>(features: seq<T>, bbox: BBox, w: nat)
    requires GetFeatures(features, bbox).Success?
    requires w == Width(bbox)
    ensures RowMajor(GetFeatures(features, bbox).value, features, w)
  {
    var h: nat := Height(bbox);
    forall y | 0 <= y < h
      ensures y * w + w <= |features|
    {
      RowBounds(y, w, h);
    }
  }

  /** Cell (y, x) of a row-major grid holds flat feature row y * w + x. */
  lemma TileCell<T>(grid: seq<seq<T>>, features: seq<T>, w: nat, y: nat, x: nat, n: nat)
    requires RowMajor(grid, features, w)
    requires y < |grid| && x < w && n == y * w + x
    ensures n < |features| && x < |grid[y]| && grid[y][x] == features[n]
  {
  }

  /** Flat row i of the features lands at grid cell (i / size_x, i % size_x). */
  lemma FlatIndexLandsAt<T>(features: seq<T>, bbox: BBox, i: int)
    requires GetFeatures(features, bbox).Success?
    requires 0 <= i < |features|
    ensures 0 < Width(bbox)
    ensures var grid := GetFeatures(features, bbox).value;
      i / Width(bbox) < |grid| && i % Width(bbox) < |grid[i / Width(bbox)]| &&
      grid[i / Width(bbox)][i % Width(bbox)] == features[i]
  {
    var w: nat, h: nat := Width(bbox), Height(bbox);
    SplitFlatIndex(i, w, h);
    GridCell(features, bbox, i / w, i % w);
  }

  /** A flat index below w * h splits into a row below h and a column
      below w. */
  lemma SplitFlatIndex(i: int, w: nat, h: nat)
    requires 0 <= i < w * h
    ensures 0 < w
    ensures 0 <= i / w < h && 0 <= i % w < w && (i / w) * w + i % w == i
  {
    if w == 0 {
      assert false;
    }
    if i / w >= h {
      MulMono(h, i / w, w);
      assert false;
    }
  }
}
