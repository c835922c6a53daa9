# cropnet: bounding-box file names and feature-map stitching

This project models two pieces of cropnet in Dafny and proves properties of
them.

- **The bounding-box codec of `cropnet/utils.py`.** Tile files are named
  with the stub `hls_tb_ark_%d_%d_%d_%d.npy`. `get_bbox_from_file_name`
  reads the box `(x0, y0, x1, y1)` back from a path. It takes the basename,
  searches for `_\d+_\d+_\d+_\d+`, and rejects the name when the pattern is
  absent or when a second match starts after the first match's start. It
  then peels the four fields off at each `_`. Beside the codec sit three
  small pieces of box arithmetic: `get_chip_bbox`, the origin shift in
  `save_tb_chips`, and the row-major reshape in `get_features`.
- **The stitcher of `cropnet/cropnet/make_feat_maps.py`.**
  `make_full_cdl_map` and `make_full_feat_map` allocate a 3000 x 3000 zero
  canvas. They walk a directory listing and copy each wanted tile into the
  canvas slice `[x0:x1, y0:y1]` named by its file. Then they save the map
  under a name derived from the region and the model's session directory.

Modules, one per file:

- `Wrappers`: `Option` and `Result`.
- `PyStr`: the Python string builtins used. These are `find`, `rfind`,
  `startswith`, `int()` on digits, `%d` and `s[:-n]`.
- `PosixPath`: `os.path.basename`, `dirname` and `join`.
- `BBoxCodec`: the pattern, the parser and the name format.
- `ChipGeometry`: the box arithmetic and the reshape.
- `RegionMaps`: the canvas.
- `MakeFeatMaps`: the region tables, the output paths and the two
  stitching loops.

How the model is built:

- The pattern is defined by `GroupsAt`. A match at index i is a `_`
  followed by a maximal run of digits, four times over. A digit is never a
  `_`, so backtracking cannot change a match. The specification of the
  parser is `Decode`: the basename must hold exactly one index at which the
  pattern matches, and the box is read from that match.
  `GetBBoxFromFileName` follows the source step by step: two searches, then
  the peel that rebinds `bbox_str` after each `find("_")`. It is proved
  equal to `Decode`.
- The canvas is the class `RegionMap` over a two-dimensional array.
  `PlaceTile` is the slice assignment. The ghost field `placed` records the
  assignments made so far. The invariant `Valid` ties every cell to
  `Painted`: the last placement covering a cell decides its value, and an
  uncovered cell keeps the fill.
- Each stitching loop is a `while` loop over an explicit sequence of
  entries that stands in for `os.listdir`. An entry carries a file's name
  and what the file holds.
- The loop is specified by `Stitch`, a fold over the listing. `Stitch`
  skips unwanted entries, turns each wanted entry into a placement, and
  stops at the first error.
- `make_feat_maps.py` imports `get_bbox_from_file_path` from a `utils`
  module that is not part of this model. The model assumes it is the
  `get_bbox_from_file_name` of `cropnet/utils.py`, and both loops use
  `Decode` for it.

## Model

| member | source | states |
|---|---|---|
| PyStr.ParseDecimal | cropnet/utils.py:41-49 | `int()` of a run of ASCII digits. Its property is in `FormatDecimal`: it reads `%d` back. `ReadFields` shows the peel applies it to each run. |
| PyStr.ZerosParse | cropnet/utils.py:41-49 | `int()` of a run of zeros is 0. |
| PyStr.LeadingZeros | cropnet/utils.py:41-49 | `int()` ignores leading zeros: zeros in front of a digit string leave its value unchanged, so a field such as "007" reads as 7. |
| PyStr.FormatInt | cropnet/utils.py:23 | `%d` of any int. Its properties are in `FormatDecimal` and `FormatIntChars`. |
| PyStr.FormatDecimal | cropnet/utils.py:23 | `%d` of a non-negative value is a non-empty run of digits. `int()` reads it back as the value. It starts with '0' only for 0. |
| PyStr.FormatIntChars | cropnet/utils.py:23 | `%d` prints only digits and '-'. The first character is a digit exactly when the value is non-negative. |
| PyStr.Find | cropnet/utils.py:40 | `find` returns -1 exactly when the character is absent. Otherwise it returns an index holding the character, with none before it. |
| PyStr.RFind | cropnet/utils.py:29 | `rfind` returns -1 exactly when the character is absent. Otherwise it returns an index holding the character, with none after it. |
| PyStr.DropLast | cropnet/cropnet/make_feat_maps.py:67 | `s[:-n]` followed by the last n characters gives s back. It is empty when s is shorter than n. |
| PyStr.StartsWith | cropnet/cropnet/make_feat_maps.py:54 | `str.startswith`, the listing filter of both loops. `ChipFileWanted` proves every chips name passes the "hls_tb_ark" filter. |
| PosixPath.DirName | cropnet/cropnet/make_feat_maps.py:44 | `os.path.dirname`. Its property is in `DirNameOfJoin`: it undoes `join`. |
| PosixPath.Join | cropnet/cropnet/make_feat_maps.py:53 | `os.path.join` (`pj`). Its properties are in `BaseNameOfJoin` and `DirNameOfJoin`. |
| PosixPath.BaseName | cropnet/utils.py:29 | The basename holds no '/'. It is a suffix of the path, preceded by a '/' unless it is the whole path. A path with no '/' is its own basename. |
| PosixPath.StripTrailingSlashes | cropnet/cropnet/make_feat_maps.py:44 | The result is a prefix that does not end in '/'. Only '/' characters were removed. |
| PosixPath.BaseNameOfJoin | cropnet/utils.py:29 | A name with no '/' joined onto any directory is the basename of the result. |
| PosixPath.DirNameOfJoin | cropnet/cropnet/make_feat_maps.py:44 | `dirname` undoes `join` onto a non-empty directory that does not end in '/'. |
| BBoxCodec.RunEnd | cropnet/utils.py:30 | `\d+` is greedy. The run from i holds only digits and is followed by a non-digit or the end. |
| BBoxCodec.GroupsAt | cropnet/utils.py:30 | The pattern `(_\d+){k}` at index i: a '_' followed by a greedy digit run, k times over. `RunEnd`, `GroupsTextAt` and `Search` carry its properties. |
| BBoxCodec.GroupsEnd | cropnet/utils.py:34 | `match.span(0)[1]`: where the k groups that match at i end. Its ensures say the span is non-empty and lies inside the name. `Search` returns it. |
| BBoxCodec.GroupDigits | cropnet/utils.py:39-49 | The digit runs of the groups matched at i, in order. `GroupDigitsAreRuns` and `MatchedText` carry their properties. |
| BBoxCodec.MatchAt | cropnet/utils.py:30 | `_\d+_\d+_\d+_\d+` matches at index i. `Search`, `DecodeOnlyMatch` and `MatchesInHlsTbName` carry its properties. |
| BBoxCodec.FieldsAt | cropnet/utils.py:39-50 | The box spelt by the match at i: `int()` of its four runs as x0, y0, x1 and y1. Its ensures say the box is non-negative. `ReadMatch` and `ReadFields` prove the peel computes it. |
| BBoxCodec.NonNegative | cropnet/utils.py:30 | No coordinate is negative. `DecodeNonNegative` and `MatchesInHlsTbName` carry its role. |
| BBoxCodec.GroupDigitsAreRuns | cropnet/utils.py:30 | Each of the runs a match reads is a non-empty string of digits. |
| BBoxCodec.GroupsTextAt | cropnet/utils.py:39 | The matched span is spelt by its runs, each after a '_'. |
| BBoxCodec.GroupsAtInSuffix | cropnet/utils.py:35 | The pattern matches at j of `file_name[start+1:]` exactly when it matches at start + 1 + j of the name. |
| BBoxCodec.GroupDigitsInSuffix | cropnet/utils.py:35 | Such a match in the suffix reads the same runs as the match in the name. |
| BBoxCodec.MatchInSuffix | cropnet/utils.py:35 | A match in the text after the first match's first character is a match of the name. |
| BBoxCodec.Search | cropnet/utils.py:30 | `re.search` finds nothing only when no index matches. Otherwise it gives the leftmost matching index and the end of that match's span. |
| BBoxCodec.Decode | cropnet/utils.py:28-50 | The specification of the parser: the basename must hold exactly one index where the pattern matches, and the box is read from it. `GetBBoxFromFileName` is proved equal to it. The lemmas below give its cases and round trip. |
| BBoxCodec.DecodeName | cropnet/utils.py:30-50 | `Decode` once the basename is taken. `DecodeNoMatch`, `DecodeTwoMatches` and `DecodeOnlyMatch` give its three outcomes. |
| BBoxCodec.GetBBoxFromFileName | cropnet/utils.py:28-50 | The step-by-step parser returns exactly `Decode(path)`: the box, `NoMatch` or `NotUnique`. |
| BBoxCodec.ReadUniqueMatch | cropnet/utils.py:35-50 | Given the leftmost match, the second search and the peel give exactly `DecodeName` of the basename. |
| BBoxCodec.ReadMatch | cropnet/utils.py:39-50 | `file_name[span[0]:span[1]][1:]` peeled into four ints is the box spelt by the match. |
| BBoxCodec.MatchedText | cropnet/utils.py:39 | The span without its leading '_' is the first run followed by '_' and each further run. |
| BBoxCodec.ReadFields | cropnet/utils.py:39-50 | The peel yields `int()` of the four runs, in order, as x0, y0, x1 and y1. |
| BBoxCodec.TakeField | cropnet/utils.py:40-42 | One `find("_")` step yields `int()` of the first run and leaves the text of the runs after it. |
| BBoxCodec.FindAfterDigits | cropnet/utils.py:40 | After a run of digits, the first '_' is the one that ends the run. |
| BBoxCodec.DecodeNoMatch | cropnet/utils.py:30-33 | A basename with no match is rejected with `NoMatch`. |
| BBoxCodec.DecodeRematch | cropnet/utils.py:34-38 | A match after the first match's start rejects the name with `NotUnique`. |
| BBoxCodec.DecodeTwoMatches | cropnet/utils.py:34-38 | Any two matching indices reject the name with `NotUnique`. |
| BBoxCodec.OverlappingMatchRejected | cropnet/utils.py:35-38 | Overlapping matches count as two: "a_1_2_3_4_5" is rejected with `NotUnique`. |
| BBoxCodec.DecodeFirstAndOnly | cropnet/utils.py:34-50 | When nothing matches after the leftmost match's start, the box is read from that match. |
| BBoxCodec.NoMatchAfter | cropnet/utils.py:35-36 | An empty second search means no index after the first match's start matches. |
| BBoxCodec.DecodeOnlyMatch | cropnet/utils.py:34-50 | When exactly one index matches, the name decodes to the box that match spells. |
| BBoxCodec.DecodeIgnoresDirectory | cropnet/utils.py:29 | A directory in front of a name never changes what the name decodes to. |
| BBoxCodec.FormatIntPrinted | cropnet/utils.py:23 | Each `%d` field is a digit or a minus sign followed by digits. It starts with a digit exactly when the value is non-negative. |
| BBoxCodec.Spelt | cropnet/utils.py:23 | A box prints as four `%d` fields. |
| BBoxCodec.HlsTbName | cropnet/utils.py:23 | The layout of the name: the stem "hls_tb_ark", the four fields each after a '_', then ".npy". The encoder's real contract is in `HlsTbNameIsStub` (it is the literal stub filled in) and `DecodeHlsTbName` (the round trip). |
| BBoxCodec.HlsTbNameIsStub | cropnet/utils.py:23 | The name is the stub with x0, y0, x1 and y1 printed into it, in that order. |
| BBoxCodec.HlsTbNameChars | cropnet/utils.py:23 | No chips name holds a '/'. |
| BBoxCodec.TbChipsPath | cropnet/utils.py:114-115 | The basename of the chips path is the chips name. |
| BBoxCodec.GroupsTextMatch | cropnet/utils.py:30 | Fields with no minus sign, written as groups, match from the start. The match reads the same fields back. |
| BBoxCodec.GroupsFromStart | cropnet/utils.py:30 | A match from the start of printed fields covers no more fields than there are, and only fields without a minus sign. |
| BBoxCodec.GroupsPastStart | cropnet/utils.py:30 | A match that starts later in printed fields covers fewer fields than there are. |
| BBoxCodec.NoMatchInStem | cropnet/utils.py:23 | No index of the stem "hls_tb_ark" starts a match. |
| BBoxCodec.SpeltLeadingDigits | cropnet/utils.py:23 | No printed field has a minus sign exactly when the box is non-negative. The fields are then plain decimals. |
| BBoxCodec.MatchesInHlsTbName | cropnet/utils.py:23 | In a chips name only index 10 can start a match. It does so exactly when the box is non-negative. |
| BBoxCodec.DecodeHlsTbName | cropnet/utils.py:23 | Round trip: the chips name of a non-negative box decodes to that box. |
| BBoxCodec.NegativeNotDecodable | cropnet/utils.py:23 | The chips name of a box with a negative coordinate is rejected with `NoMatch`. |
| BBoxCodec.DecodeNonNegative | cropnet/utils.py:30-50 | A box read from a name has no negative coordinate: the pattern has no minus sign. |
| BBoxCodec.DecodeTbChipsPath | cropnet/utils.py:114-115 | The chips path decodes as the chips name does, to the box itself when the box is non-negative. |
| ChipGeometry.ChipBBox | cropnet/utils.py:58-59 | The chip box has corner (chip_x, chip_y). Its width and its height both equal chip_size. |
| ChipGeometry.SaveTbChipsBox | cropnet/utils.py:118-123 | The in-place list update shifts x0 and x1 by `bbox_src[0]` and y0 and y1 by `bbox_src[1]`. Width and height are unchanged. |
| ChipGeometry.Shifted | cropnet/utils.py:119-123 | A box moved by dx along x and dy along y. `SaveTbChipsBox` proves the in-place list update computes it. |
| ChipGeometry.SaveTbChipsPath | cropnet/utils.py:124 | The path `save_tb_chips` writes. `SavedChipsDecode` proves it is the chips path of the shifted box, and that it decodes to that box exactly when the box is non-negative. |
| ChipGeometry.SavedChipsDecode | cropnet/utils.py:118-125 | `save_tb_chips` writes where `load_tb_chips` reads for the shifted box. The file's name decodes to the shifted box exactly when that box is non-negative. |
| ChipGeometry.GetFeatures | cropnet/utils.py:65-67 | The reshape succeeds exactly when both sizes are non-negative and N = size_x * size_y. The grid then has size_y rows of size_x cells. |
| ChipGeometry.GridCell | cropnet/utils.py:67 | Grid cell (y, x) holds flat feature y * size_x + x. |
| ChipGeometry.GridRowMajor | cropnet/utils.py:65-67 | Row y of the reshaped grid is the run of size_x flat features that starts at y * size_x. |
| ChipGeometry.RowMajor | cropnet/utils.py:67 | The rows of a grid are consecutive runs of w flat features. `GridRowMajor` proves the reshape is row-major. |
| ChipGeometry.TileCell | cropnet/utils.py:67 | In a row-major grid of rows w long, cell (y, x) is flat feature y * w + x. |
| ChipGeometry.FlatIndexLandsAt | cropnet/utils.py:65-67 | Flat feature i lands at grid cell (i / size_x, i % size_x). |
| RegionMaps.Fits | cropnet/cropnet/make_feat_maps.py:61 | numpy's shape rule for `feat_map[x0:x1, y0:y1] = tile`: non-negative bounds, and a tile with as many rows and columns as the clipped slice. `SliceLen` and `FitsInside` carry its properties. |
| RegionMaps.Covers | cropnet/cropnet/make_feat_maps.py:61 | Canvas cell (i, j) lies in the slice `[x0:x1, y0:y1]`. `PlaceTile` writes exactly the covered cells. |
| RegionMaps.AllFit | cropnet/cropnet/make_feat_maps.py:61 | Every placement made so far was accepted. `StitchAllFit` proves it for a successful stitch. |
| RegionMaps.Painted | cropnet/cropnet/make_feat_maps.py:51-61 | The canvas content after a sequence of slice assignments. `LastCoverWins` and `UncoveredKeepsFill` carry its properties. |
| RegionMaps.RegionMap.Valid | cropnet/cropnet/make_feat_maps.py:51-61 | The canvas invariant: a 3000 x 3000 array whose every cell is `Painted` of the assignments so far. The constructor establishes it and `PlaceTile` keeps it. |
| RegionMaps.SliceLen | cropnet/cropnet/make_feat_maps.py:61 | A slice `[lo:hi]` of a 3000-cell axis is clipped to the axis. It has hi - lo cells when lo <= hi <= 3000, 3000 - lo cells when lo < 3000 < hi, and none when hi <= lo or lo >= 3000. |
| RegionMaps.FitsInside | cropnet/cropnet/make_feat_maps.py:61 | A box inside the canvas accepts a tile that has exactly its shape. |
| RegionMaps.PaintedOne | cropnet/cropnet/make_feat_maps.py:61 | A single assignment paints a covered cell with the tile element at the cell's offset into the box. |
| RegionMaps.RegionMap.constructor | cropnet/cropnet/make_feat_maps.py:51 | Every cell of the new 3000 x 3000 canvas holds the fill, and nothing is placed yet. |
| RegionMaps.RegionMap.PlaceTile | cropnet/cropnet/make_feat_maps.py:61 | It is called only with a tile of the clipped slice's shape, rows and columns. After the assignment the slice equals the tile element for element, and every other cell is unchanged. The placement is recorded and the invariant is kept. |
| RegionMaps.LastCoverWins | cropnet/cropnet/make_feat_maps.py:53-61 | Where tiles overlap, a cell shows the last placed tile that covers it. |
| RegionMaps.UncoveredKeepsFill | cropnet/cropnet/make_feat_maps.py:51 | A cell no tile covers keeps the canvas's initial value. |
| MakeFeatMaps.IndexOf | cropnet/cropnet/make_feat_maps.py:63 | `list.index` fails exactly when the value is absent. Otherwise it gives the first position holding the value. |
| MakeFeatMaps.HlsNameOf | cropnet/cropnet/make_feat_maps.py:63-64 | The CDL region at position i maps to the HLS region at position i. A region not in the list is an `UnknownRegion` error. |
| MakeFeatMaps.LookUpHlsName | cropnet/cropnet/make_feat_maps.py:63-64 | The lookup method computes exactly that mapping. |
| MakeFeatMaps.ExtractSessionDir | cropnet/cropnet/make_feat_maps.py:43-44 | `_extract_session_dir`: dirname twice. `SessionDirOfModelPath` carries its property. |
| MakeFeatMaps.SessionDirOfModelPath | cropnet/cropnet/make_feat_maps.py:43-44 | For a model stored as session/sub/file, the session directory is session. |
| MakeFeatMaps.SavePath | cropnet/cropnet/make_feat_maps.py:65 | `pj(feat_maps_dir, "%s_feat_map.npy" % name)`. `ImagesBesideSave` carries its property. |
| MakeFeatMaps.PngPath | cropnet/cropnet/make_feat_maps.py:67 | `save_path[:-4] + ".png"`. `SwapExtension` and `ImagesBesideSave` carry its property. |
| MakeFeatMaps.FalseColorPath | cropnet/cropnet/make_feat_maps.py:71 | `save_path[:-4] + "_false_color.png"`. `SwapExtension` and `ImagesBesideSave` carry its property. |
| MakeFeatMaps.CdlOutputs | cropnet/cropnet/make_feat_maps.py:48-71 | The files a CDL run writes under `feat_maps/cdl`, named by the HLS region. `CdlRegionSavedUnderHlsName` and `ImagesBesideSave` carry its property. |
| MakeFeatMaps.HlsOutputs | cropnet/cropnet/make_feat_maps.py:75-94 | The files an HLS run writes under `feat_maps/hls`, named by the region. `ImagesBesideSave` carries its property. |
| MakeFeatMaps.ImagesBesideSave | cropnet/cropnet/make_feat_maps.py:65-67 | The map is saved as `<name>_feat_map.npy` in the maps directory. Dropping the last four characters swaps ".npy" for ".png" or "_false_color.png" in that directory. |
| MakeFeatMaps.SwapExtension | cropnet/cropnet/make_feat_maps.py:92-94 | `save_path[:-4] + suffix` is the stem joined onto the directory with the new suffix. |
| MakeFeatMaps.Stitch | cropnet/cropnet/make_feat_maps.py:53-61 | The specification of both loops: a fold over the listing that skips unwanted entries and stops at the first error. `StitchPlacesWanted` and `StitchFailurePersists` state what it computes. |
| MakeFeatMaps.Filter | cropnet/cropnet/make_feat_maps.py:53-54 | The comprehension keeps only wanted entries of the listing, keeps every wanted entry, and keeps no more entries than the listing holds. |
| MakeFeatMaps.FilterConcat | cropnet/cropnet/make_feat_maps.py:53-54 | Filtering two parts of a listing gives the two filtered parts, in the same order. |
| MakeFeatMaps.FilterOne | cropnet/cropnet/make_feat_maps.py:54 | A single entry is kept exactly when it is wanted. With `FilterConcat`, this fixes the filtered listing: the wanted entries, in listing order, duplicates included. |
| MakeFeatMaps.StitchPlacesWanted | cropnet/cropnet/make_feat_maps.py:53-61 | On success there is one placement per wanted entry, in listing order, each that entry's result. On failure the error is that of the first wanted entry that fails. |
| MakeFeatMaps.StitchFailurePersists | cropnet/cropnet/make_feat_maps.py:56-58 | Once an entry fails, the later entries do not change the outcome. |
| MakeFeatMaps.StitchAllFit | cropnet/cropnet/make_feat_maps.py:53-61 | When every step's placement fits, every placement of a successful stitch fits. |
| MakeFeatMaps.StitchPaintsLastCover | cropnet/cropnet/make_feat_maps.py:53-61 | After a successful stitch, a cell covered by wanted entry k and by no later wanted entry shows entry k's tile: the last file listed wins. |
| MakeFeatMaps.StitchLeavesUncovered | cropnet/cropnet/make_feat_maps.py:51-61 | After a successful stitch, a cell no wanted entry covers keeps the fill. |
| MakeFeatMaps.StitchCell | cropnet/cropnet/make_feat_maps.py:53-61 | Such a cell holds entry k's tile element at the cell's offset (r, c) into entry k's box. |
| MakeFeatMaps.StitchWantedSucceeds | cropnet/cropnet/make_feat_maps.py:53-61 | In a successful stitch the step of every wanted entry succeeded. |
| MakeFeatMaps.CdlWanted | cropnet/cropnet/make_feat_maps.py:53-54 | The CDL listing filter: the name starts with "cdl_2016_" followed by the region. `WrongDTypeAborts` and `CdlCellFromLastFile` use it. |
| MakeFeatMaps.CdlPlacements | cropnet/cropnet/make_feat_maps.py:51-61 | The placements `make_full_cdl_map` makes, as `Stitch` of the listing. `MakeFullCdlMap` proves the loop makes them. `CdlCellFromLastFile` and `CdlCellUncovered` give the resulting cells. |
| MakeFeatMaps.CdlStep | cropnet/cropnet/make_feat_maps.py:55-61 | A dtype other than uint8 gives `WrongDType`, before the name is read. For uint8, a name that does not decode gives `BadName`. The step succeeds exactly when the dtype is uint8, the name decodes, and the array has the clipped slice's shape. It then places the file's own array at the decoded box. Any other failure is `ShapeMismatch`. |
| MakeFeatMaps.LabelTilePlacedAtBox | cropnet/cropnet/make_feat_maps.py:55-61 | A uint8 entry whose name decodes to a box inside the canvas, and whose array has that box's shape, is placed whole at that box. |
| MakeFeatMaps.CdlCellFromLastFile | cropnet/cropnet/make_feat_maps.py:51-61 | After a successful CDL run, a cell covered by wanted file k's decoded box, and by no later wanted file's box, holds file k's label at the cell's offset into the box. |
| MakeFeatMaps.CdlCellUncovered | cropnet/cropnet/make_feat_maps.py:51-61 | After a successful CDL run, a cell no wanted file's decoded box covers is still zero. |
| MakeFeatMaps.WrongDTypeAborts | cropnet/cropnet/make_feat_maps.py:56-58 | A wanted tile whose dtype is not uint8 makes the run fail, so nothing is saved. |
| MakeFeatMaps.CdlRun | cropnet/cropnet/make_feat_maps.py:46-71 | The whole outcome of `make_full_cdl_map`. `WrongDTypeAborts`, `CdlRegionSavedUnderHlsName` and `MakeFullCdlMap` state its properties. |
| MakeFeatMaps.CdlRegionSavedUnderHlsName | cropnet/cropnet/make_feat_maps.py:63-67 | After a successful stitch, the CDL region at position i is saved under the HLS name at position i. An unknown region fails after stitching. |
| MakeFeatMaps.ReadCdlFile | cropnet/cropnet/make_feat_maps.py:55-61 | The loop body, with the step-by-step parser, computes `CdlStep`. A dtype other than uint8 fails with `WrongDType`. A success carries the file's own array at the box its name decodes to. |
| MakeFeatMaps.CdlLoopStep | cropnet/cropnet/make_feat_maps.py:53-61 | One pass keeps the canvas invariant. It extends the stitched placements by entry k or returns that entry's error. |
| MakeFeatMaps.MakeFullCdlMap | cropnet/cropnet/make_feat_maps.py:46-71 | The result is exactly `CdlRun`. On success the canvas holds the placements `Stitch` specifies, on a zero fill. |
| MakeFeatMaps.HlsWanted | cropnet/cropnet/make_feat_maps.py:80 | The HLS listing filter: the name starts with "hls_tb_" followed by the region. `ChipFileWanted` proves chips names pass it for "ark". |
| MakeFeatMaps.SquareFits | cropnet/cropnet/make_feat_maps.py:87-90 | n features reshaped into a square of side x1 - x0 fill the canvas slice of the box. `HlsStep` and `HlsTile` succeed exactly when it holds. |
| MakeFeatMaps.HlsStep | cropnet/cropnet/make_feat_maps.py:87-90 | A name that does not decode gives `BadName`. The step succeeds exactly when the name decodes to a non-negative box whose clipped slices are both x1 - x0 long, and there are (x1 - x0) * (x1 - x0) features. The placement then sits at the decoded box, fits it, and holds the features row-major, x1 - x0 to a row. |
| MakeFeatMaps.HlsTile | cropnet/cropnet/make_feat_maps.py:88-90 | Reshaping to a square of side x1 - x0 and assigning to the box succeeds exactly when that square has the clipped slice's shape. A failed reshape is `BadFeatures`. The tile sits at the box and holds the features row-major. |
| MakeFeatMaps.HlsTileErrors | cropnet/cropnet/make_feat_maps.py:88-90 | A tile fails with `BadFeatures` exactly when the reshape fails. Every other failure is `ShapeMismatch` at the box. |
| MakeFeatMaps.HlsStepErrors | cropnet/cropnet/make_feat_maps.py:87-90 | Once the name decodes, an entry fails with `BadFeatures` exactly when its features do not reshape into a square of side x1 - x0. Every other failure is `ShapeMismatch` at the decoded box. |
| MakeFeatMaps.HlsPlacements | cropnet/cropnet/make_feat_maps.py:78-90 | The placements `make_full_feat_map` makes, as `Stitch` of the listing. `MakeFullFeatMap` proves the loop makes them. `HlsCellFromLastFile` and `HlsCellUncovered` give the resulting cells. |
| MakeFeatMaps.HlsRun | cropnet/cropnet/make_feat_maps.py:73-94 | The whole outcome of `make_full_feat_map`. `MakeFullFeatMap`, `HlsCellFromLastFile` and `HlsCellUncovered` state its properties. |
| MakeFeatMaps.SavedChipsStitchedAtBox | cropnet/cropnet/make_feat_maps.py:80-90 | A chips file written for a square box inside the canvas is wanted by the "ark" run. It is stitched at that box with its features reshaped row-major. |
| MakeFeatMaps.SquareTileInside | cropnet/cropnet/make_feat_maps.py:88-90 | The features of a square box inside the canvas, one per cell, reshape to a grid that is placed whole at the box. |
| MakeFeatMaps.ChipFileWanted | cropnet/cropnet/make_feat_maps.py:80 | Every chips name starts with "hls_tb_ark". |
| MakeFeatMaps.ChipFileDecodes | cropnet/cropnet/make_feat_maps.py:87 | A chips path in the data directory decodes to its non-negative box. |
| MakeFeatMaps.ReadHlsFile | cropnet/cropnet/make_feat_maps.py:87-90 | The loop body, with the step-by-step parser, computes `HlsStep`. A success sits at the box its name decodes to and holds the features row-major. |
| MakeFeatMaps.HlsCellFromLastFile | cropnet/cropnet/make_feat_maps.py:78-90 | After a successful HLS run, a cell at offset (r, c) into wanted file k's decoded box, covered by no later wanted file's box, holds feature r * (x1 - x0) + c of file k. |
| MakeFeatMaps.HlsCellUncovered | cropnet/cropnet/make_feat_maps.py:78-90 | After a successful HLS run, a cell no wanted file's decoded box covers still holds the zero it started with. |
| MakeFeatMaps.HlsLoopStep | cropnet/cropnet/make_feat_maps.py:80-90 | One pass keeps the canvas invariant. It extends the stitched placements by entry k or returns that entry's error. |
| MakeFeatMaps.MakeFullFeatMap | cropnet/cropnet/make_feat_maps.py:73-94 | The result is exactly `HlsRun`. On success the canvas holds the placements `Stitch` specifies, on the given zero. |

## Left out

- Digits are ASCII only. Python's `\d` and `int()` also accept other
  Unicode decimal digits.
- File and raster I/O is not modelled. This covers `np.load`, `np.save`,
  `cv2.imwrite`, `os.makedirs`, `os.path.exists` and the gdal readers.
  - A run's outcome lists the files it would write.
  - The listing order of `os.listdir` is an input.
  - What each file holds is part of its listing entry.
- The model, `compute_features`, `TBChips` and the `DataLoader` are not
  modelled. They are foreign code with worker concurrency. Each HLS entry
  carries the flat per-pixel features the model would compute for it.
- `normalize_feats`, `transform_cdl` (both from the `utils` module that
  `make_feat_maps.py` imports) and the `* 255` conversions are not
  modelled, because they are floating point. The HLS map is modelled as it
  stands before normalisation, and the false-colour image only by its path.
- The canvas element is generic. For CDL it is `int`, the uint8 label;
  numpy's float64 canvas is not modelled. For HLS it is one per-pixel
  feature vector, and its channel count against the canvas's 3 channels is
  not checked.
- MakeFeatMaps.HlsTile and MakeFeatMaps.HlsStep: numpy broadcasts a tile with a dimension of size 1
  across the slice. The model does not: such a tile must have the clipped
  slice's shape (`Fits`), or the step reports `ShapeMismatch`. For example,
  the box (5, 0, 6, 10) with one feature is broadcast by numpy but rejected
  here, so "succeeds exactly when" is stricter than numpy. Clipping past
  3000 and empty slices are modelled. Negative indices are not, because a
  decoded box never has one (`DecodeNonNegative`).
- MakeFeatMaps.CdlStep: the same rule applies to CDL tiles, broadcasting
  included.
- ChipGeometry.GetFeatures: a negative size is always an error. numpy's
  inference of a single -1 dimension is not modelled. The stitching loop
  never meets it, because both sizes it passes are x1 - x0.
- `get_bbox_from_file_path` is taken to be `get_bbox_from_file_name`.
- The unused `sz` of the CDL loop is not modelled.
- The rest of `cropnet/utils.py` is not modelled: `get_cdl_subregion` and
  `get_hls_subregions_*`. They are raster I/O.
- `transform_cdl` and `normalize_feats` come from the sibling `utils` module
  that `cropnet/cropnet/make_feat_maps.py` imports, which is not part of
  this model. They are floating point (see above).
- `cropnet/visualize/rgb_map.py`, `cropnet/cropnet/seg_trainer.py`, `main`
  and the argparse code are not modelled.
