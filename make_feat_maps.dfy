/** cropnet/cropnet/make_feat_maps.py: stitching per-tile files into one
    3000 x 3000 map per region. `make_full_cdl_map` stitches crop-label
    tiles, `make_full_feat_map` stitches a model's per-pixel features. The
    directory listing is an explicit sequence of entries in listing order;
    what each file holds (its dtype and cells, or the features the model
    computes from it) is part of the entry. */
module MakeFeatMaps {
  import opened Wrappers
  import opened PyStr
  import opened PosixPath
  import opened BBoxCodec
  import opened ChipGeometry
  import opened RegionMaps

  /** `g_hls_regions` and `g_cdl_regions`: parallel lists, the CDL region at
      position i covers the same ground as the HLS region at position i. */
  const HlsRegions: seq<string> := ["ark", "ohio", "sd", "vai"]
  const CdlRegions: seq<string> := ["neAR", "nwOH", "seSD", "vai_crop"]

  /** Why a stitching run stops; each is an exception in the source. */
  datatype MapError =
    | BadName(path: string, cause: CodecError)
    | WrongDType(path: string, dtype: string)
    | BadFeatures(path: string, reshape: ReshapeError)
    | ShapeMismatch(path: string, box: BBox)
    | UnknownRegion(region: string)

  /** `xs.index(x)`: the first position holding x; None where Python raises
      ValueError. */
  function IndexOf(xs: seq<string>, x: string): (r: Option<nat>)
    ensures r.None? <==> x !in xs
    ensures r.Some? ==> r.value < |xs| && xs[r.value] == x && x !in xs[..r.value]
  {
    if xs == [] then None
    else if xs[0] == x then Some(0)
    else match IndexOf(xs[1..], x)
      case None => None
      case Some(k) =>
        assert xs[..k + 1] == [xs[0]] + xs[1..][..k];
        Some(k + 1)
  }

  /** The HLS name a CDL region's map is saved under. */
  function HlsNameOf(region: string): (r: Result<string, MapError>)
    ensures forall i :: 0 <= i < |CdlRegions| && CdlRegions[i] == region ==> r == Success(HlsRegions[i])
    ensures region !in CdlRegions ==> r == Failure(UnknownRegion(region))
  {
    match IndexOf(CdlRegions, region)
    case None => Failure(UnknownRegion(region))
    case Some(i) =>
      assert CdlRegions[..4] == CdlRegions;
      Success(HlsRegions[i])
  }

  /** `_extract_session_dir`: the directory two levels above the model. */
  function ExtractSessionDir(modelPath: string): string {
    DirName(DirName(modelPath))
  }

  /** A model stored as session/sub/file belongs to session. */
  lemma SessionDirOfModelPath(session: string, sub: string, file: string)
    requires session != [] && session[|session| - 1] != '/'
    requires sub != [] && '/' !in sub
    requires '/' !in file
    ensures ExtractSessionDir(Join(Join(session, sub), file)) == session
  {
    var modelsDir := Join(session, sub);
    NotAbsolute(sub);
    assert modelsDir == session + "/" + sub;
    assert modelsDir[|modelsDir| - 1] == sub[|sub| - 1];
    DirNameOfJoin(modelsDir, file);
    DirNameOfJoin(session, sub);
  }

  /** `"%s_feat_map.npy" % name` (the name, then "_feat_map", then the
      ".npy" extension) joined onto the maps directory. */
  function SavePath(mapsDir: string, name: string): string {
    Join(mapsDir, name + "_feat_map" + ".npy")
  }

  /** `save_path[:-4] + ".png"` */
  function PngPath(savePath: string): string {
    DropLast(savePath, 4) + ".png"
  }

  /** `save_path[:-4] + "_false_color.png"` */
  function FalseColorPath(savePath: string): string {
    DropLast(savePath, 4) + "_false_color.png"
  }

  /** The files a successful run writes: the map and its images. */
  datatype Outputs = Outputs(npy: string, images: seq<string>)

  function CdlOutputs(sessionDir: string, hlsName: string): Outputs {
    var save := SavePath(Join(sessionDir, "feat_maps/cdl"), hlsName);
    Outputs(save, [PngPath(save), FalseColorPath(save)])
  }

  function HlsOutputs(sessionDir: string, region: string): Outputs {
    var save := SavePath(Join(sessionDir, "feat_maps/hls"), region);
    Outputs(save, [PngPath(save)])
  }

  /** What `Join` puts before a relative name. */
  function JoinPrefix(dir: string): string {
    if dir == [] || dir[|dir| - 1] == '/' then dir else dir + "/"
  }

  lemma JoinRelative(dir: string, name: string)
    requires '/' !in name
    ensures Join(dir, name) == JoinPrefix(dir) + name
  {
    NotAbsolute(name);
  }

  /** Cutting the last four characters removes exactly ".npy", so the
      images sit beside the map under the same stem. */
  lemma ImagesBesideSave(mapsDir: string, name: string)
    requires '/' !in name
    ensures BaseName(SavePath(mapsDir, name)) == name + "_feat_map" + ".npy"
    ensures PngPath(SavePath(mapsDir, name)) == Join(mapsDir, name + "_feat_map" + ".png")
    ensures FalseColorPath(SavePath(mapsDir, name)) == Join(mapsDir, name + "_feat_map" + "_false_color.png")
  {
    var stem := name + "_feat_map";
    assert '/' !in stem + ".npy";
    BaseNameOfJoin(mapsDir, stem + ".npy");
    SwapExtension(mapsDir, stem, ".png");
    SwapExtension(mapsDir, stem, "_false_color.png");
  }

  /** Replacing the ".npy" at the end of a joined path by another suffix is
      joining the stem with that suffix. */
  lemma SwapExtension(dir: string, stem: string, suffix: string)
    requires '/' !in stem && '/' !in suffix
    ensures DropLast(Join(dir, stem + ".npy"), 4) + suffix == Join(dir, stem + suffix)
  {
    assert '/' !in stem + ".npy";
    assert '/' !in stem + suffix;
    JoinRelative(dir, stem + ".npy");
    JoinRelative(dir, stem + suffix);
    var kept := JoinPrefix(dir) + stem;
    assert Join(dir, stem + ".npy") == kept + ".npy";
    DropNpy(kept, Join(dir, stem + ".npy"));
  }

  lemma DropNpy(kept: string, save: string)
    requires save == kept + ".npy"
    ensures DropLast(save, 4) == kept
  {
    assert save[|save| - 4..] == ".npy";
  }

  /** The list comprehension's filter: the entries for which `wanted`
      holds, in listing order. */
  function Filter<E>(es: seq<E>, wanted: E -> bool): (fs: seq<E>)
    ensures |fs| <= |es|
    ensures forall k :: 0 <= k < |fs| ==> wanted(fs[k]) && fs[k] in es
    ensures forall k :: 0 <= k < |es| && wanted(es[k]) ==> es[k] in fs
  {
    if es == [] then []
    else
      var last := es[|es| - 1];
      assert es == es[..|es| - 1] + [last];
      Filter(es[..|es| - 1], wanted) + (if wanted(last) then [last] else [])
  }

  /** Filtering a listing in two parts filters each part and keeps them in
      order. */
  lemma {:induction false} FilterConcat<E>(a: seq<E>, b: seq<E>, wanted: E -> bool)
    ensures Filter(a + b, wanted) == Filter(a, wanted) + Filter(b, wanted)
    decreases |b|
  {
    if b == [] {
      assert a + b == a;
    } else {
      var init := b[..|b| - 1];
      var last := b[|b| - 1];
      assert (a + b)[..|a + b| - 1] == a + init;
      assert (a + b)[|a + b| - 1] == last;
      FilterConcat(a, init, wanted);
    }
  }

  /** A single entry is kept exactly when it is wanted. */
  lemma FilterOne<E>(e: E, wanted: E -> bool)
    ensures Filter([e], wanted) == if wanted(e) then [e] else []
  {
    assert [e][..0] == [];
  }

  /** The stitching loop as a fold over the listing: each wanted entry is
      turned into a placement by `step`, and the first failing entry ends
      the run with its error. */
  function Stitch<E, T>(es: seq<E>, wanted: E -> bool, step: E -> Result<Placement<T>, MapError>)
    : Result<seq<Placement<T>>, MapError>
  {
    if es == [] then Success([])
    else match Stitch(es[..|es| - 1], wanted, step)
      case Failure(err) => Failure(err)
      case Success(ps) =>
        var e := es[|es| - 1];
        if !wanted(e) then Success(ps)
        else match step(e)
          case Failure(err) => Failure(err)
          case Success(p) => Success(ps + [p])
  }

  /** Stitching visits the wanted entries only, in listing order: when it
      succeeds the placements are their steps' results, and when it fails
      the error is that of the first wanted entry whose step fails. */
  lemma {:induction false} StitchPlacesWanted<E, T>(es: seq<E>, wanted: E -> bool, step: E -> Result<Placement<T>, MapError>)
    ensures Stitch(es, wanted, step).Success? ==>
      && |Stitch(es, wanted, step).value| == |Filter(es, wanted)|
      && forall k :: 0 <= k < |Filter(es, wanted)| ==>
           step(Filter(es, wanted)[k]) == Success(Stitch(es, wanted, step).value[k])
    ensures Stitch(es, wanted, step).Failure? ==>
      exists k :: 0 <= k < |Filter(es, wanted)|
        && step(Filter(es, wanted)[k]) == Failure(Stitch(es, wanted, step).error)
        && forall j :: 0 <= j < k ==> step(Filter(es, wanted)[j]).Success?
  {
    if es != [] {
      var init := es[..|es| - 1];
      var e := es[|es| - 1];
      StitchPlacesWanted(init, wanted, step);
      var fs0 := Filter(init, wanted);
      var fs := Filter(es, wanted);
      if !wanted(e) {
        assert fs == fs0;
      } else {
        assert fs == fs0 + [e];
        assert forall k :: 0 <= k < |fs0| ==> fs[k] == fs0[k];
        if Stitch(init, wanted, step).Failure? {
          var k0 :| 0 <= k0 < |fs0| && step(fs0[k0]) == Failure(Stitch(init, wanted, step).error)
            && forall j :: 0 <= j < k0 ==> step(fs0[j]).Success?;
          assert step(fs[k0]) == Failure(Stitch(es, wanted, step).error);
          assert forall j :: 0 <= j < k0 ==> step(fs[j]).Success?;
        } else {
          var ps0 := Stitch(init, wanted, step).value;
          assert forall j :: 0 <= j < |fs0| ==> step(fs[j]) == Success(ps0[j]);
          if step(e).Failure? {
            assert step(fs[|fs0|]) == Failure(Stitch(es, wanted, step).error);
          } else {
            var ps := Stitch(es, wanted, step).value;
            assert ps == ps0 + [step(e).value];
            assert step(fs[|fs0|]) == Success(ps[|fs0|]);
          }
        }
      }
    }
  }

  /** Once an entry has failed, later entries do not change the outcome. */
  lemma {:induction false} StitchFailurePersists<E, T>(es: seq<E>, wanted: E -> bool, step: E -> Result<Placement<T>, MapError>, k: nat)
    requires k <= |es| && Stitch(es[..k], wanted, step).Failure?
    ensures Stitch(es, wanted, step) == Stitch(es[..k], wanted, step)
    decreases |es| - k
  {
    if k == |es| {
      assert es[..k] == es;
    } else {
      assert es[..k + 1][..k] == es[..k];
      StitchFailurePersists(es, wanted, step, k + 1);
    }
  }

  /** One more entry of the listing: an unwanted entry leaves the outcome
      as it was, a wanted one appends its step's placement or ends the run
      with its step's error. */
  lemma StitchNext<E, T>(es: seq<E>, wanted: E -> bool, step: E -> Result<Placement<T>, MapError>, k: nat)
    requires k < |es| && Stitch(es[..k], wanted, step).Success?
    ensures var ps := Stitch(es[..k], wanted, step).value;
      Stitch(es[..k + 1], wanted, step) ==
        if !wanted(es[k]) then Success(ps)
        else match step(es[k])
          case Failure(err) => Failure(err)
          case Success(p) => Success(ps + [p])
  {
    assert es[..k + 1][..k] == es[..k];
  }

  /** Every placement a successful stitch makes comes from a step, so when
      every step's placement fits, all of them do. */
  lemma {:induction false} StitchAllFit<E, T>(es: seq<E>, wanted: E -> bool, step: E -> Result<Placement<T>, MapError>)
    requires forall e :: step(e).Success? ==> Fits(step(e).value.box, step(e).value.tile, step(e).value.cols)
    ensures Stitch(es, wanted, step).Success? ==> AllFit(Stitch(es, wanted, step).value)
    decreases |es|
  {
    if es != [] {
      StitchAllFit(es[..|es| - 1], wanted, step);
    }
  }

  /** After a successful stitch, a cell covered by the placement of wanted
      entry k, and by no placement of a later wanted entry, shows entry k's
      tile: the last file listed wins. */
  lemma {:induction false} StitchPaintsLastCover<E, T>(es: seq<E>, wanted: E -> bool, step: E -> Result<Placement<T>, MapError>,
                                                       fill: T, k: nat, i: int, j: int)
    requires Stitch(es, wanted, step).Success? && AllFit(Stitch(es, wanted, step).value)
    requires k < |es| && wanted(es[k]) && step(es[k]).Success?
    requires Fits(step(es[k]).value.box, step(es[k]).value.tile, step(es[k]).value.cols)
    requires Covers(step(es[k]).value.box, i, j)
    requires forall m :: k < m < |es| && wanted(es[m]) && step(es[m]).Success? ==> !Covers(step(es[m]).value.box, i, j)
    ensures Painted(Stitch(es, wanted, step).value, fill, i, j) == Painted([step(es[k]).value], fill, i, j)
    decreases |es|
  {
    var init := es[..|es| - 1];
    var e := es[|es| - 1];
    var ps := Stitch(es, wanted, step).value;
    var ps0 := Stitch(init, wanted, step).value;
    if wanted(e) {
      assert ps == ps0 + [step(e).value];
    } else {
      assert ps == ps0;
    }
    assert forall m :: 0 <= m < |ps0| ==> ps0[m] == ps[m];
    if k < |es| - 1 {
      assert init[k] == es[k];
      assert forall m :: k < m < |init| ==> init[m] == es[m];
      StitchPaintsLastCover(init, wanted, step, fill, k, i, j);
      if wanted(e) {
        assert ps[..|ps| - 1] == ps0;
      }
    }
  }

  /** After a successful stitch, a cell covered by the placement of no
      wanted entry keeps the fill. */
  lemma {:induction false} StitchLeavesUncovered<E, T>(es: seq<E>, wanted: E -> bool, step: E -> Result<Placement<T>, MapError>,
                                                       fill: T, i: int, j: int)
    requires Stitch(es, wanted, step).Success? && AllFit(Stitch(es, wanted, step).value)
    requires forall m :: 0 <= m < |es| && wanted(es[m]) && step(es[m]).Success? ==> !Covers(step(es[m]).value.box, i, j)
    ensures Painted(Stitch(es, wanted, step).value, fill, i, j) == fill
    decreases |es|
  {
    if es != [] {
      var init := es[..|es| - 1];
      var e := es[|es| - 1];
      var ps := Stitch(es, wanted, step).value;
      var ps0 := Stitch(init, wanted, step).value;
      if wanted(e) {
        assert ps == ps0 + [step(e).value];
        assert ps[..|ps| - 1] == ps0;
      } else {
        assert ps == ps0;
      }
      assert forall m :: 0 <= m < |ps0| ==> ps0[m] == ps[m];
      assert forall m :: 0 <= m < |init| ==> init[m] == es[m];
      StitchLeavesUncovered(init, wanted, step, fill, i, j);
    }
  }

  /** The cell (i, j) at offset (r, c) into the box of wanted entry k, when
      no later wanted entry's placement covers it, shows entry k's tile at
      (r, c) after a successful stitch whose steps all give fitting
      placements. */
  lemma StitchCell<E, T>(es: seq<E>, wanted: E -> bool, step: E -> Result<Placement<T>, MapError>,
                         fill: T, k: nat, i: int, j: int, r: nat, c: nat)
    requires forall e :: step(e).Success? ==> Fits(step(e).value.box, step(e).value.tile, step(e).value.cols)
    requires Stitch(es, wanted, step).Success?
    requires k < |es| && wanted(es[k]) && step(es[k]).Success? && Covers(step(es[k]).value.box, i, j)
    requires r == i - step(es[k]).value.box.x0 && c == j - step(es[k]).value.box.y0
    requires forall m :: k < m < |es| && wanted(es[m]) && step(es[m]).Success? ==> !Covers(step(es[m]).value.box, i, j)
    ensures AllFit(Stitch(es, wanted, step).value)
    ensures r < |step(es[k]).value.tile| && c < |step(es[k]).value.tile[r]|
    ensures Painted(Stitch(es, wanted, step).value, fill, i, j) == step(es[k]).value.tile[r][c]
  {
    StitchAllFit(es, wanted, step);
    var p := step(es[k]).value;
    StitchPaintsLastCover(es, wanted, step, fill, k, i, j);
    PaintedOne(p, fill, i, j, r, c);
  }

  /** In a successful stitch every wanted entry's step succeeded. */
  lemma {:induction false} StitchWantedSucceeds<E, T>(es: seq<E>, wanted: E -> bool, step: E -> Result<Placement<T>, MapError>, k: nat)
    requires Stitch(es, wanted, step).Success?
    requires k < |es| && wanted(es[k])
    ensures step(es[k]).Success?
    decreases |es|
  {
    if k < |es| - 1 {
      var init := es[..|es| - 1];
      assert init[k] == es[k];
      StitchWantedSucceeds(init, wanted, step, k);
    }
  }

  // ---------------------------------------------------------------- CDL

  /** A labels-directory entry: its name, the dtype `np.load` reports, and
      the array it holds, of shape (|cells|, cols). */
  datatype CdlFile = CdlFile(name: string, dtype: string, cols: nat, cells: seq<seq<int>>)

  function CdlWanted(region: string): CdlFile -> bool {
    (f: CdlFile) => StartsWith(f.name, "cdl_2016_" + region)
  }

  /** One pass of the CDL loop body: the dtype is checked first, then the
      box is read from the path, then the slice assignment needs the shape.
      The placement is the file's whole array at the decoded box. */
  ghost function CdlStep(labelsDir: string, f: CdlFile): (r: Result<Placement<int>, MapError>)
    ensures f.dtype != "uint8" ==> r == Failure(WrongDType(Join(labelsDir, f.name), f.dtype))
    ensures f.dtype == "uint8" && Decode(Join(labelsDir, f.name)).Failure? ==>
      r == Failure(BadName(Join(labelsDir, f.name), Decode(Join(labelsDir, f.name)).error))
    ensures r.Success? <==>
      f.dtype == "uint8" && Decode(Join(labelsDir, f.name)).Success? &&
      Fits(Decode(Join(labelsDir, f.name)).value, f.cells, f.cols)
    ensures r.Success? ==> r.value == Placement(Decode(Join(labelsDir, f.name)).value, f.cells, f.cols)
    ensures r.Failure? && f.dtype == "uint8" && Decode(Join(labelsDir, f.name)).Success? ==>
      r == Failure(ShapeMismatch(Join(labelsDir, f.name), Decode(Join(labelsDir, f.name)).value))
  {
    var p := Join(labelsDir, f.name);
    if f.dtype != "uint8" then Failure(WrongDType(p, f.dtype))
    else match Decode(p)
      case Failure(e) => Failure(BadName(p, e))
      case Success(b) =>
        if Fits(b, f.cells, f.cols) then Success(Placement(b, f.cells, f.cols)) else Failure(ShapeMismatch(p, b))
  }

  ghost function CdlStepOf(labelsDir: string): CdlFile -> Result<Placement<int>, MapError> {
    f => CdlStep(labelsDir, f)
  }

  /** The placements `make_full_cdl_map` makes on its canvas. */
  ghost function CdlPlacements(region: string, labelsDir: string, files: seq<CdlFile>): Result<seq<Placement<int>>, MapError> {
    Stitch(files, CdlWanted(region), CdlStepOf(labelsDir))
  }

  /** The whole outcome of `make_full_cdl_map`: a stitching error, else the
      region lookup's error, else the files it saves. */
  ghost function CdlRun(region: string, modelPath: string, labelsDir: string, files: seq<CdlFile>): Result<Outputs, MapError> {
    match CdlPlacements(region, labelsDir, files)
    case Failure(e) => Failure(e)
    case Success(_) =>
      match HlsNameOf(region)
      case Failure(e) => Failure(e)
      case Success(hlsName) => Success(CdlOutputs(ExtractSessionDir(modelPath), hlsName))
  }

  /** A tile whose dtype is not uint8 stops the run, so nothing is saved. */
  lemma WrongDTypeAborts(region: string, modelPath: string, labelsDir: string, files: seq<CdlFile>, k: nat)
    requires k < |files| && CdlWanted(region)(files[k]) && files[k].dtype != "uint8"
    ensures CdlRun(region, modelPath, labelsDir, files).Failure?
  {
    var step := CdlStepOf(labelsDir);
    StitchPlacesWanted(files, CdlWanted(region), step);
    var fs := Filter(files, CdlWanted(region));
    assert files[k] in fs;
    var j :| 0 <= j < |fs| && fs[j] == files[k];
    assert step(fs[j]).Failure?;
  }

  /** Every CDL region's map is saved under its HLS name; an unknown region
      stops the run after stitching. */
  lemma CdlRegionSavedUnderHlsName(region: string, modelPath: string, labelsDir: string, files: seq<CdlFile>)
    requires CdlPlacements(region, labelsDir, files).Success?
    ensures forall i :: 0 <= i < |CdlRegions| && CdlRegions[i] == region ==>
      CdlRun(region, modelPath, labelsDir, files) ==
        Success(CdlOutputs(ExtractSessionDir(modelPath), HlsRegions[i]))
    ensures region !in CdlRegions ==> CdlRun(region, modelPath, labelsDir, files) == Failure(UnknownRegion(region))
  {
  }

  /** A uint8 label tile named for a box inside the canvas, whose array has
      the box's shape, is placed whole at that box. */
  lemma LabelTilePlacedAtBox(labelsDir: string, f: CdlFile, b: BBox)
    requires f.dtype == "uint8" && Decode(Join(labelsDir, f.name)) == Success(b)
    requires b.x0 <= b.x1 <= Side && b.y0 <= b.y1 <= Side
    requires |f.cells| == Width(b) && f.cols == Height(b)
    requires forall r :: 0 <= r < |f.cells| ==> |f.cells[r]| == f.cols
    ensures CdlStep(labelsDir, f) == Success(Placement(b, f.cells, f.cols))
  {
    var p := Join(labelsDir, f.name);
    DecodeNonNegative(p);
    FitsInside(b, f.cells, f.cols);
    assert CdlStep(labelsDir, f).Success?;
  }

  lemma CdlStepsFit(labelsDir: string)
    ensures forall f :: CdlStepOf(labelsDir)(f).Success? ==>
      Fits(CdlStepOf(labelsDir)(f).value.box, CdlStepOf(labelsDir)(f).value.tile, CdlStepOf(labelsDir)(f).value.cols)
  {
  }

  /** After a successful CDL run, a canvas cell covered by the decoded box
      b of wanted file k, and by the box of no later wanted file, holds file
      k's label at (r, c), the cell's offset into b. */
  lemma CdlCellFromLastFile(region: string, labelsDir: string, files: seq<CdlFile>, k: nat,
                            b: BBox, i: int, j: int, r: nat, c: nat)
    requires CdlPlacements(region, labelsDir, files).Success?
    requires k < |files| && CdlWanted(region)(files[k])
    requires Decode(Join(labelsDir, files[k].name)) == Success(b)
    requires Covers(b, i, j) && r == i - b.x0 && c == j - b.y0
    requires forall m :: k < m < |files| && CdlWanted(region)(files[m]) && Decode(Join(labelsDir, files[m].name)).Success? ==>
      !Covers(Decode(Join(labelsDir, files[m].name)).value, i, j)
    ensures AllFit(CdlPlacements(region, labelsDir, files).value)
    ensures r < |files[k].cells| && c < |files[k].cells[r]|
    ensures Painted(CdlPlacements(region, labelsDir, files).value, 0, i, j) == files[k].cells[r][c]
  {
    var step := CdlStepOf(labelsDir);
    var wanted := CdlWanted(region);
    CdlStepsFit(labelsDir);
    StitchWantedSucceeds(files, wanted, step, k);
    CdlStepAt(labelsDir, files[k], b);
    CdlLaterFilesMiss(region, labelsDir, files, k, i, j);
    assert CdlPlacements(region, labelsDir, files) == Stitch(files, wanted, step);
    StitchCell(files, wanted, step, 0, k, i, j, r, c);
  }

  /** A placed CDL entry holds the file's own array at its decoded box. */
  lemma CdlStepAt(labelsDir: string, f: CdlFile, b: BBox)
    requires CdlStepOf(labelsDir)(f).Success?
    requires Decode(Join(labelsDir, f.name)) == Success(b)
    ensures CdlStepOf(labelsDir)(f) == Success(Placement(b, f.cells, f.cols))
  {
  }

  lemma CdlLaterFilesMiss(region: string, labelsDir: string, files: seq<CdlFile>, k: nat, i: int, j: int)
    requires forall m :: k < m < |files| && CdlWanted(region)(files[m]) && Decode(Join(labelsDir, files[m].name)).Success? ==>
      !Covers(Decode(Join(labelsDir, files[m].name)).value, i, j)
    ensures forall m :: k < m < |files| && CdlWanted(region)(files[m]) && CdlStepOf(labelsDir)(files[m]).Success? ==>
      !Covers(CdlStepOf(labelsDir)(files[m]).value.box, i, j)
  {
  }

  /** After a successful CDL run, a canvas cell that no wanted file's
      decoded box covers is still zero. */
  lemma CdlCellUncovered(region: string, labelsDir: string, files: seq<CdlFile>, i: int, j: int)
    requires CdlPlacements(region, labelsDir, files).Success?
    requires forall m :: 0 <= m < |files| && CdlWanted(region)(files[m]) && Decode(Join(labelsDir, files[m].name)).Success? ==>
      !Covers(Decode(Join(labelsDir, files[m].name)).value, i, j)
    ensures AllFit(CdlPlacements(region, labelsDir, files).value)
    ensures Painted(CdlPlacements(region, labelsDir, files).value, 0, i, j) == 0
  {
    var step := CdlStepOf(labelsDir);
    CdlStepsFit(labelsDir);
    StitchAllFit(files, CdlWanted(region), step);
    StitchLeavesUncovered(files, CdlWanted(region), step, 0, i, j);
  }

  /** The CDL loop body up to the slice assignment. */
  method ReadCdlFile(labelsDir: string, f: CdlFile) returns (r: Result<Placement<int>, MapError>)
    ensures r == CdlStep(labelsDir, f)
    ensures f.dtype != "uint8" ==> r.Failure? && r.error.WrongDType?
    ensures r.Success? ==> Decode(Join(labelsDir, f.name)) == Success(r.value.box) && r.value.tile == f.cells
  {
    var p := Join(labelsDir, f.name);
    if f.dtype != "uint8" {
      return Failure(WrongDType(p, f.dtype));
    }
    var bbox := GetBBoxFromFileName(p);
    if bbox.Failure? {
      return Failure(BadName(p, bbox.error));
    }
    var b := bbox.value;
    if !Fits(b, f.cells, f.cols) {
      return Failure(ShapeMismatch(p, b));
    }
    r := Success(Placement(b, f.cells, f.cols));
  }

  /** `g_hls_regions[g_cdl_regions.index(region)]` */
  method LookUpHlsName(region: string) returns (r: Result<string, MapError>)
    ensures r == HlsNameOf(region)
  {
    var idx := IndexOf(CdlRegions, region);
    if idx.None? {
      return Failure(UnknownRegion(region));
    }
    r := Success(HlsRegions[idx.value]);
  }

  /** `make_full_cdl_map`: stitches the wanted label tiles onto a zero
      canvas in listing order, then saves under the region's HLS name. */
  method MakeFullCdlMap(region: string, modelPath: string, labelsDir: string, files: seq<CdlFile>)
    returns (canvas: RegionMap<int>, r: Result<Outputs, MapError>)
    ensures fresh(canvas.cells) && canvas.Valid() && canvas.fill == 0
    ensures r == CdlRun(region, modelPath, labelsDir, files)
    ensures r.Success? ==> CdlPlacements(region, labelsDir, files) == Success(canvas.placed)
  {
    canvas := new RegionMap<int>(0);
    var k := 0;
    while k < |files|
      invariant k <= |files|
      invariant fresh(canvas.cells) && canvas.Valid() && canvas.fill == 0
      invariant CdlPlacements(region, labelsDir, files[..k]) == Success(canvas.placed)
    {
      var err := CdlLoopStep(canvas, region, labelsDir, files, k);
      if err.Some? {
        r := Failure(err.value);
        StitchFailurePersists(files, CdlWanted(region), CdlStepOf(labelsDir), k + 1);
        return;
      }
      k := k + 1;
    }
    assert files[..k] == files;
    var hlsName := LookUpHlsName(region);
    if hlsName.Failure? {
      return canvas, Failure(hlsName.error);
    }
    r := Success(CdlOutputs(ExtractSessionDir(modelPath), hlsName.value));
  }

  /** One pass of the CDL loop over entry k: a wanted entry is read and its
      tile assigned onto the canvas, or its error is returned. */
  method CdlLoopStep(canvas: RegionMap<int>, region: string, labelsDir: string, files: seq<CdlFile>, k: nat)
    returns (err: Option<MapError>)
    requires k < |files| && canvas.Valid()
    requires CdlPlacements(region, labelsDir, files[..k]) == Success(canvas.placed)
    modifies canvas, canvas.cells
    ensures canvas.Valid()
    ensures err.None? ==> CdlPlacements(region, labelsDir, files[..k + 1]) == Success(canvas.placed)
    ensures err.Some? ==> CdlPlacements(region, labelsDir, files[..k + 1]) == Failure(err.value)
  {
    StitchNext(files, CdlWanted(region), CdlStepOf(labelsDir), k);
    var f := files[k];
    if StartsWith(f.name, "cdl_2016_" + region) {
      var placement := ReadCdlFile(labelsDir, f);
      if placement.Failure? {
        return Some(placement.error);
      }
      canvas.PlaceTile(placement.value.box, placement.value.tile, placement.value.cols);
    }
    err := None;
  }

  // ---------------------------------------------------------------- HLS

  /** A data-directory entry: its name and the per-pixel features the model
      computes from the chips it holds, one element per pixel. */
  datatype HlsFile<T> = HlsFile(name: string, features: seq<T>)

  function HlsWanted<T>(region: string): HlsFile<T> -> bool {
    (f: HlsFile<T>) => StartsWith(f.name, "hls_tb_" + region)
  }

  /** n features reshaped into a square of side x1 - x0 fill the canvas
      slice of b: the bounds are non-negative, both clipped slice lengths
      are that side, and n is its square. */
  predicate SquareFits(b: BBox, n: int) {
    && NonNegative(b)
    && SliceLen(b.x0, b.x1) == Width(b) && SliceLen(b.y0, b.y1) == Width(b)
    && n == Width(b) * Width(b)
  }

  /** One pass of the HLS loop body: the box is read from the path, the
      features are reshaped into a square of side x1 - x0, and the slice
      assignment needs the shape. The placement sits at the decoded box and
      holds the features row-major. */
  ghost function HlsStep<T>(dataDir: string, f: HlsFile<T>): (r: Result<Placement<T>, MapError>)
    ensures Decode(Join(dataDir, f.name)).Failure? ==>
      r == Failure(BadName(Join(dataDir, f.name), Decode(Join(dataDir, f.name)).error))
    ensures r.Success? <==>
      Decode(Join(dataDir, f.name)).Success? && SquareFits(Decode(Join(dataDir, f.name)).value, |f.features|)
    ensures r.Success? ==>
      && Decode(Join(dataDir, f.name)) == Success(r.value.box)
      && r.value.cols == Width(r.value.box)
      && Fits(r.value.box, r.value.tile, r.value.cols)
    ensures r.Success? ==> RowMajor(r.value.tile, f.features, r.value.cols)
  {
    var p := Join(dataDir, f.name);
    match Decode(p)
    case Failure(e) => Failure(BadName(p, e))
    case Success(b) => HlsTile(p, b, f.features)
  }

  /** The features of the file at p, boxed by b, as the tile to assign:
      reshaped row-major into a square of side x1 - x0, which must have the
      slice's shape. */
  function HlsTile<T>(p: string, b: BBox, features: seq<T>): (r: Result<Placement<T>, MapError>)
    ensures r.Success? <==> SquareFits(b, |features|)
    ensures !(0 <= Width(b) && |features| == Width(b) * Width(b)) ==> r.Failure? && r.error.BadFeatures?
    ensures r.Success? ==> r.value.box == b && r.value.cols == Width(b) && Fits(b, r.value.tile, r.value.cols)
    ensures r.Success? ==> RowMajor(r.value.tile, features, r.value.cols)
  {
    var sz := b.x1 - b.x0;
    var square := BBox(0, 0, sz, sz);
    match GetFeatures(features, square)
    case Failure(e) => Failure(BadFeatures(p, e))
    case Success(grid) =>
      if Fits(b, grid, sz) then
        GridRowMajor(features, square, sz);
        Success(Placement(b, grid, sz))
      else Failure(ShapeMismatch(p, b))
  }

  /** The two ways a tile fails: `BadFeatures` exactly when the reshape
      fails, and otherwise the slice assignment's `ShapeMismatch`. */
  lemma HlsTileErrors<T>(p: string, b: BBox, features: seq<T>)
    ensures var r := HlsTile(p, b, features);
      r.Failure? && r.error.BadFeatures? <==> !(0 <= Width(b) && |features| == Width(b) * Width(b))
    ensures var r := HlsTile(p, b, features);
      r.Failure? && !r.error.BadFeatures? ==> r == Failure(ShapeMismatch(p, b))
  {
  }

  /** Once the name decodes, an HLS entry fails with `BadFeatures` exactly
      when its features do not reshape into a square of side x1 - x0, and
      otherwise with `ShapeMismatch` at the decoded box. */
  lemma HlsStepErrors<T>(dataDir: string, f: HlsFile<T>, b: BBox)
    requires Decode(Join(dataDir, f.name)) == Success(b)
    ensures var r := HlsStep(dataDir, f);
      r.Failure? && r.error.BadFeatures? <==> !(0 <= Width(b) && |f.features| == Width(b) * Width(b))
    ensures var r := HlsStep(dataDir, f);
      r.Failure? && !r.error.BadFeatures? ==> r == Failure(ShapeMismatch(Join(dataDir, f.name), b))
  {
    HlsTileErrors(Join(dataDir, f.name), b, f.features);
  }

  ghost function HlsStepOf<T>(dataDir: string): HlsFile<T> -> Result<Placement<T>, MapError> {
    f => HlsStep(dataDir, f)
  }

  ghost function HlsPlacements<T>(region: string, dataDir: string, files: seq<HlsFile<T>>): Result<seq<Placement<T>>, MapError> {
    Stitch(files, HlsWanted(region), HlsStepOf(dataDir))
  }

  /** The whole outcome of `make_full_feat_map`: a stitching error, else
      the files it saves. */
  ghost function HlsRun<T>(region: string, modelPath: string, dataDir: string, files: seq<HlsFile<T>>): Result<Outputs, MapError> {
    match HlsPlacements(region, dataDir, files)
    case Failure(e) => Failure(e)
    case Success(_) => Success(HlsOutputs(ExtractSessionDir(modelPath), region))
  }

  /** A feature chip file that `save_tb_chips` wrote for a square box
      inside the canvas is stitched by the "ark" run, at that box, with the
      features reshaped row-major into a square of the box's side. */
  lemma SavedChipsStitchedAtBox<T>(dataDir: string, b: BBox, features: seq<T>)
    requires 0 <= b.x0 <= b.x1 <= Side && 0 <= b.y0 <= b.y1 <= Side
    requires Width(b) == Height(b) && |features| == Width(b) * Width(b)
    ensures HlsWanted("ark")(HlsFile(HlsTbName(b), features))
    ensures var grid := GetFeatures(features, BBox(0, 0, Width(b), Width(b)));
      && grid.Success?
      && HlsStep(dataDir, HlsFile(HlsTbName(b), features)) == Success(Placement(b, grid.value, Width(b)))
  {
    var f := HlsFile(HlsTbName(b), features);
    var p := Join(dataDir, f.name);
    ChipFileWanted(b, features);
    ChipFileDecodes(dataDir, b);
    SquareTileInside(p, b, features);
    assert HlsStep(dataDir, f) == HlsTile(p, b, features);
  }

  /** Features of a square box inside the canvas, one per cell, make the
      row-major grid placed at that box. */
  lemma SquareTileInside<T>(p: string, b: BBox, features: seq<T>)
    requires 0 <= b.x0 <= b.x1 <= Side && 0 <= b.y0 <= b.y1 <= Side
    requires Width(b) == Height(b) && |features| == Width(b) * Width(b)
    ensures var grid := GetFeatures(features, BBox(0, 0, Width(b), Width(b)));
      && grid.Success?
      && HlsTile(p, b, features) == Success(Placement(b, grid.value, Width(b)))
  {
    var w := Width(b);
    var sq := BBox(0, 0, w, w);
    assert Width(sq) == w && Height(sq) == w;
    var g := GetFeatures(features, sq);
    assert g.Success?;
    FitsInside(b, g.value, w);
  }

  lemma ChipFileWanted<T>(b: BBox, features: seq<T>)
    ensures HlsWanted("ark")(HlsFile(HlsTbName(b), features))
  {
    var name := HlsTbName(b);
    assert "hls_tb_" + "ark" == "hls_tb_ark";
    assert StartsWith(name, "hls_tb_ark");
  }

  lemma ChipFileDecodes(dataDir: string, b: BBox)
    requires NonNegative(b)
    ensures Decode(Join(dataDir, HlsTbName(b))) == Success(b)
  {
    DecodeTbChipsPath(dataDir, b);
  }

  lemma HlsStepsFit<T>(dataDir: string)
    ensures forall f: HlsFile<T> :: HlsStepOf(dataDir)(f).Success? ==>
      Fits(HlsStepOf(dataDir)(f).value.box, HlsStepOf(dataDir)(f).value.tile, HlsStepOf(dataDir)(f).value.cols)
  {
  }

  /** After a successful HLS run, a canvas cell covered by the decoded box
      b of wanted file k, and by the box of no later wanted file, holds file
      k's feature row n = r * w + c, where (r, c) is the cell's offset into b
      and w = x1 - x0: the reshape is row-major and the tile's rows run along
      the canvas's first axis. */
  lemma HlsCellFromLastFile<T>(region: string, dataDir: string, files: seq<HlsFile<T>>, zero: T, k: nat,
                               b: BBox, i: int, j: int, r: nat, c: nat, w: nat, n: nat)
    requires HlsPlacements(region, dataDir, files).Success?
    requires k < |files| && HlsWanted(region)(files[k])
    requires Decode(Join(dataDir, files[k].name)) == Success(b)
    requires Covers(b, i, j) && r == i - b.x0 && c == j - b.y0 && w == Width(b) && n == r * w + c
    requires forall m :: k < m < |files| && HlsWanted(region)(files[m]) && Decode(Join(dataDir, files[m].name)).Success? ==>
      !Covers(Decode(Join(dataDir, files[m].name)).value, i, j)
    ensures AllFit(HlsPlacements(region, dataDir, files).value)
    ensures n < |files[k].features|
    ensures Painted(HlsPlacements(region, dataDir, files).value, zero, i, j) == files[k].features[n]
  {
    var step := HlsStepOf<T>(dataDir);
    var wanted := HlsWanted<T>(region);
    HlsStepsFit<T>(dataDir);
    StitchWantedSucceeds(files, wanted, step, k);
    HlsStepAt(dataDir, files[k], b, w);
    HlsLaterFilesMiss(region, dataDir, files, k, i, j);
    assert HlsPlacements(region, dataDir, files) == Stitch(files, wanted, step);
    StitchCell(files, wanted, step, zero, k, i, j, r, c);
    TileCell(step(files[k]).value.tile, files[k].features, w, r, c, n);
  }

  /** A stitched HLS entry sits at its decoded box, with the side of that box
      as its column count, and holds its features row-major. */
  lemma HlsStepAt<T>(dataDir: string, f: HlsFile<T>, b: BBox, w: nat)
    requires HlsStepOf(dataDir)(f).Success?
    requires Decode(Join(dataDir, f.name)) == Success(b) && w == Width(b)
    ensures HlsStepOf(dataDir)(f).value.box == b && HlsStepOf(dataDir)(f).value.cols == w
    ensures RowMajor(HlsStepOf(dataDir)(f).value.tile, f.features, w)
  {
  }

  lemma HlsLaterFilesMiss<T>(region: string, dataDir: string, files: seq<HlsFile<T>>, k: nat, i: int, j: int)
    requires forall m :: k < m < |files| && HlsWanted(region)(files[m]) && Decode(Join(dataDir, files[m].name)).Success? ==>
      !Covers(Decode(Join(dataDir, files[m].name)).value, i, j)
    ensures forall m :: k < m < |files| && HlsWanted(region)(files[m]) && HlsStepOf(dataDir)(files[m]).Success? ==>
      !Covers(HlsStepOf(dataDir)(files[m]).value.box, i, j)
  {
  }

  /** After a successful HLS run, a canvas cell that no wanted file's
      decoded box covers still holds the fill. */
  lemma HlsCellUncovered<T>(region: string, dataDir: string, files: seq<HlsFile<T>>, zero: T, i: int, j: int)
    requires HlsPlacements(region, dataDir, files).Success?
    requires forall m :: 0 <= m < |files| && HlsWanted(region)(files[m]) && Decode(Join(dataDir, files[m].name)).Success? ==>
      !Covers(Decode(Join(dataDir, files[m].name)).value, i, j)
    ensures AllFit(HlsPlacements(region, dataDir, files).value)
    ensures Painted(HlsPlacements(region, dataDir, files).value, zero, i, j) == zero
  {
    var step := HlsStepOf<T>(dataDir);
    HlsStepsFit<T>(dataDir);
    StitchAllFit(files, HlsWanted(region), step);
    StitchLeavesUncovered(files, HlsWanted(region), step, zero, i, j);
  }

  /** The HLS loop body up to the slice assignment. */
  method ReadHlsFile<T>(dataDir: string, f: HlsFile<T>) returns (r: Result<Placement<T>, MapError>)
    ensures r == HlsStep(dataDir, f)
    ensures r.Success? ==> Decode(Join(dataDir, f.name)) == Success(r.value.box)
    ensures r.Success? ==> RowMajor(r.value.tile, f.features, Width(r.value.box))
  {
    var p := Join(dataDir, f.name);
    var bbox := GetBBoxFromFileName(p);
    if bbox.Failure? {
      return Failure(BadName(p, bbox.error));
    }
    r := HlsTile(p, bbox.value, f.features);
  }

  /** `make_full_feat_map`: stitches the model's features for the wanted
      chip files onto a canvas filled with `zero`, then saves under the
      region's own name. */
  method MakeFullFeatMap<T>(region: string, zero: T, modelPath: string, dataDir: string, files: seq<HlsFile<T>>)
    returns (canvas: RegionMap<T>, r: Result<Outputs, MapError>)
    ensures fresh(canvas.cells) && canvas.Valid() && canvas.fill == zero
    ensures r == HlsRun(region, modelPath, dataDir, files)
    ensures r.Success? ==> HlsPlacements(region, dataDir, files) == Success(canvas.placed)
  {
    canvas := new RegionMap<T>(zero);
    var k := 0;
    while k < |files|
      invariant k <= |files|
      invariant fresh(canvas.cells) && canvas.Valid() && canvas.fill == zero
      invariant HlsPlacements(region, dataDir, files[..k]) == Success(canvas.placed)
    {
      var err := HlsLoopStep(canvas, region, dataDir, files, k);
      if err.Some? {
        r := Failure(err.value);
        StitchFailurePersists(files, HlsWanted(region), HlsStepOf(dataDir), k + 1);
        return;
      }
      k := k + 1;
    }
    assert files[..k] == files;
    r := Success(HlsOutputs(ExtractSessionDir(modelPath), region));
  }

  /** One pass of the HLS loop over entry k: a wanted entry is read and its
      features assigned onto the canvas, or its error is returned. */
  method HlsLoopStep<T>(canvas: RegionMap<T>, region: string, dataDir: string, files: seq<HlsFile<T>>, k: nat)
    returns (err: Option<MapError>)
    requires k < |files| && canvas.Valid()
    requires HlsPlacements(region, dataDir, files[..k]) == Success(canvas.placed)
    modifies canvas, canvas.cells
    ensures canvas.Valid()
    ensures err.None? ==> HlsPlacements(region, dataDir, files[..k + 1]) == Success(canvas.placed)
    ensures err.Some? ==> HlsPlacements(region, dataDir, files[..k + 1]) == Failure(err.value)
  {
    StitchNext(files, HlsWanted(region), HlsStepOf(dataDir), k);
    var f := files[k];
    if StartsWith(f.name, "hls_tb_" + region) {
      var placement := ReadHlsFile(dataDir, f);
      if placement.Failure? {
        return Some(placement.error);
      }
      canvas.PlaceTile(placement.value.box, placement.value.tile, placement.value.cols);
    }
    err := None;
  }
}
