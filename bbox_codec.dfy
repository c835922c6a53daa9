/** The bounding-box file-name codec of cropnet/utils.py: the parser
    `get_bbox_from_file_name` and the name format `g_hlstb_stub`.

    The regular expression `_\d+_\d+_\d+_\d+` is modelled by hand over ASCII
    text. Each `_` after a digit run can only follow a maximal run (a digit
    is never `_`), and the greedy last run is maximal too, so a match at an
    index is unique and is described by `GroupsAt` without backtracking. */
module BBoxCodec {
  import opened Wrappers
  import opened PyStr
  import opened PosixPath

  /** A pixel box (x0, y0, x1, y1): x0 and x1 index the rows of a raster,
      y0 and y1 its columns; x1 and y1 are exclusive. */
  datatype BBox = BBox(x0: int, y0: int, x1: int, y1: int)

  predicate NonNegative(b: BBox) {
    0 <= b.x0 && 0 <= b.y0 && 0 <= b.x1 && 0 <= b.y1
  }

  /** The two RuntimeErrors of the parser, carrying the basename. */
  datatype CodecError = NoMatch(name: string) | NotUnique(name: string)

  // ---------------------------------------------------------------- the pattern

  /** The end of the longest run of digits that starts at index i. */
  function RunEnd(s: string, i: nat): (e: nat)
    requires i <= |s|
    ensures i <= e <= |s|
    ensures forall k :: i <= k < e ==> IsDigit(s[k])
    ensures e == |s| || !IsDigit(s[e])
    decreases |s| - i
  {
    if i < |s| && IsDigit(s[i]) then RunEnd(s, i + 1) else i
  }

  /** A run of digits ends exactly where a non-digit (or the end) follows it. */
  lemma {:induction false} RunEndIs(s: string, i: nat, e: nat)
    requires i <= e <= |s|
    requires forall k :: i <= k < e ==> IsDigit(s[k])
    requires e == |s| || !IsDigit(s[e])
    ensures RunEnd(s, i) == e
    decreases e - i
  {
    if i < e {
      RunEndIs(s, i + 1, e);
    }
  }

  /** `(_\d+){k}` matches at index i. */
  predicate GroupsAt(s: string, i: nat, k: nat)
    requires i <= |s|
    decreases k
  {
    k == 0 ||
    (i < |s| && s[i] == '_' && RunEnd(s, i + 1) > i + 1 && GroupsAt(s, RunEnd(s, i + 1), k - 1))
  }

  /** Where the k groups that match at i end. */
  function GroupsEnd(s: string, i: nat, k: nat): (e: nat)
    requires i <= |s| && GroupsAt(s, i, k)
    ensures i <= e <= |s|
    ensures k > 0 ==> i + 1 < e
    decreases k
  {
    if k == 0 then i else GroupsEnd(s, RunEnd(s, i + 1), k - 1)
  }

  /** The digit runs of the k groups that match at i, in order. */
  function GroupDigits(s: string, i: nat, k: nat): (runs: seq<string>)
    requires i <= |s| && GroupsAt(s, i, k)
    ensures |runs| == k
    decreases k
  {
    if k == 0 then []
    else [s[i + 1..RunEnd(s, i + 1)]] + GroupDigits(s, RunEnd(s, i + 1), k - 1)
  }

  /** Each run a match reads is a non-empty run of digits. */
  lemma {:induction false} GroupDigitsAreRuns(s: string, i: nat, k: nat)
    requires i <= |s| && GroupsAt(s, i, k)
    ensures DigitRuns(GroupDigits(s, i, k))
    decreases k
  {
    if k > 0 {
      var e := RunEnd(s, i + 1);
      GroupDigitsAreRuns(s, e, k - 1);
      var d := GroupDigits(s, i, k);
      var run := s[i + 1..e];
      assert forall j :: 0 <= j < |run| ==> run[j] == s[i + 1 + j];
      assert d[0] == run;
      assert forall m :: 1 <= m < k ==> d[m] == GroupDigits(s, e, k - 1)[m - 1];
    }
  }

  /** `_\d+_\d+_\d+_\d+` matches at index i of s. */
  predicate MatchAt(s: string, i: int) {
    0 <= i < |s| && GroupsAt(s, i, 4)
  }

  /** The box spelt by the match at i: its four runs, read as x0, y0, x1, y1. */
  function FieldsAt(s: string, i: int): (b: BBox)
    requires MatchAt(s, i)
    ensures NonNegative(b)
  {
    var runs := GroupDigits(s, i, 4);
    GroupDigitsAreRuns(s, i, 4);
    BBox(ParseDecimal(runs[0]), ParseDecimal(runs[1]), ParseDecimal(runs[2]), ParseDecimal(runs[3]))
  }

  /** Non-empty runs of digits. */
  predicate DigitRuns(runs: seq<string>) {
    forall m :: 0 <= m < |runs| ==> |runs[m]| > 0 && AllDigits(runs[m])
  }

  /** The text `_r0_r1..` of the groups whose digit runs are r0, r1, ... */
  function GroupsText(runs: seq<string>): (t: string)
    ensures |t| >= |runs|
  {
    if runs == [] then "" else "_" + runs[0] + GroupsText(runs[1..])
  }

  /** The text that k groups match is spelt by their runs. */
  lemma {:induction false} GroupsTextAt(s: string, i: nat, k: nat)
    requires i <= |s| && GroupsAt(s, i, k)
    ensures s[i..GroupsEnd(s, i, k)] == GroupsText(GroupDigits(s, i, k))
    decreases k
  {
    if k > 0 {
      var e := RunEnd(s, i + 1);
      var g := GroupsEnd(s, e, k - 1);
      var rest := GroupDigits(s, e, k - 1);
      GroupsTextAt(s, e, k - 1);
      var d := GroupDigits(s, i, k);
      assert d[0] == s[i + 1..e] && d[1..] == rest;
      assert GroupsText(d) == "_" + s[i + 1..e] + GroupsText(rest);
      assert GroupsEnd(s, i, k) == g;
      UnderscoreThenRun(s, i, e, g);
    }
  }

  /** A span that starts with '_' is '_' followed by the rest, up to any
      later cut. */
  lemma UnderscoreThenRun(s: string, i: nat, e: nat, g: nat)
    requires i < e <= g <= |s| && s[i] == '_'
    ensures s[i..g] == "_" + s[i + 1..e] + s[e..g]
  {
    assert s[i..g] == s[i..e] + s[e..g];
    assert s[i..e] == "_" + s[i + 1..e];
  }

  /** What the parser promises: the basename must hold exactly one index at
      which the pattern matches, and the box is read from that match. */
  ghost function Decode(path: string): Result<BBox, CodecError> {
    DecodeName(BaseName(path))
  }

  /** Decode once the basename is taken. */
  ghost function DecodeName(name: string): Result<BBox, CodecError> {
    if forall i :: 0 <= i < |name| ==> !MatchAt(name, i) then Failure(NoMatch(name))
    else if exists i, j :: 0 <= i < j < |name| && MatchAt(name, i) && MatchAt(name, j) then
      Failure(NotUnique(name))
    else
      var i :| 0 <= i < |name| && MatchAt(name, i);
      Success(FieldsAt(name, i))
  }

  /** Every box the parser reads has non-negative coordinates: `\d+`
      admits no minus sign. */
  lemma DecodeNonNegative(path: string)
    ensures Decode(path).Success? ==> NonNegative(Decode(path).value)
  {
  }

  // ---------------------------------------------------------------- matching in a suffix

  /** The run of digits at j of the suffix t = s[d..] is the run at d + j
      of s. */
  lemma RunEndInSuffix(s: string, d: nat, t: string, j: nat, i: nat)
    requires i == d + j && i <= |s| && t == s[d..]
    ensures RunEnd(t, j) + d == RunEnd(s, i)
  {
    RunEndIs(t, j, RunEnd(s, i) - d);
  }

  lemma SliceOfSuffix(s: string, d: nat, t: string, a: nat, b: nat, lo: nat, hi: nat)
    requires lo == d + a && hi == d + b && a <= b && hi <= |s| && t == s[d..]
    ensures t[a..b] == s[lo..hi]
  {
  }

  /** The pattern only looks forward: groups match at j of the suffix
      t = s[d..] exactly when they match at d + j of s. */
  lemma {:induction false} GroupsAtInSuffix(s: string, d: nat, t: string, j: nat, i: nat, k: nat)
    requires i == d + j && i <= |s| && t == s[d..]
    ensures GroupsAt(t, j, k) == GroupsAt(s, i, k)
    decreases k
  {
    if k > 0 && i < |s| {
      RunEndInSuffix(s, d, t, j + 1, i + 1);
      GroupsAtInSuffix(s, d, t, RunEnd(t, j + 1), RunEnd(s, i + 1), k - 1);
    }
  }

  /** ... and then with the same digit runs. */
  lemma {:induction false} GroupDigitsInSuffix(s: string, d: nat, t: string, j: nat, i: nat, k: nat)
    requires i == d + j && i <= |s| && t == s[d..] && GroupsAt(s, i, k)
    ensures GroupsAt(t, j, k)
    ensures GroupDigits(t, j, k) == GroupDigits(s, i, k)
    decreases k
  {
    GroupsAtInSuffix(s, d, t, j, i, k);
    if k > 0 {
      var jn, iN := RunEnd(t, j + 1), RunEnd(s, i + 1);
      RunEndInSuffix(s, d, t, j + 1, i + 1);
      GroupDigitsInSuffix(s, d, t, jn, iN, k - 1);
      SliceOfSuffix(s, d, t, j + 1, jn, i + 1, iN);
    }
  }

  /** The two lemmas above, for a suffix t of s named by the caller. */
  lemma GroupsInTail(s: string, d: nat, t: string, j: nat, i: nat, k: nat)
    requires i == d + j && i <= |s| && t == s[d..]
    ensures GroupsAt(t, j, k) == GroupsAt(s, i, k)
    ensures GroupsAt(t, j, k) ==> GroupDigits(t, j, k) == GroupDigits(s, i, k)
  {
    GroupsAtInSuffix(s, d, t, j, i, k);
    if GroupsAt(s, i, k) {
      GroupDigitsInSuffix(s, d, t, j, i, k);
    }
  }

  lemma MatchInSuffix(s: string, d: nat, j: int)
    requires d <= |s| && 0 <= j
    ensures MatchAt(s[d..], j) <==> MatchAt(s, d + j)
  {
    if d + j <= |s| {
      GroupsAtInSuffix(s, d, s[d..], j, d + j, 4);
    }
  }

  // ---------------------------------------------------------------- the parser

  /** `re.search(r"_\d+_\d+_\d+_\d+", s)`: the leftmost match and its span. */
  method Search(s: string) returns (m: Option<(nat, nat)>)
    ensures m.None? ==> forall i :: 0 <= i < |s| ==> !MatchAt(s, i)
    ensures m.Some? ==>
      MatchAt(s, m.value.0) && m.value.1 == GroupsEnd(s, m.value.0, 4) &&
      forall i :: 0 <= i < m.value.0 ==> !MatchAt(s, i)
  {
    var i := 0;
    while i < |s|
      invariant 0 <= i <= |s|
      invariant forall k :: 0 <= k < i ==> !MatchAt(s, k)
    {
      if MatchAt(s, i) {
        return Some((i, GroupsEnd(s, i, 4)));
      }
      i := i + 1;
    }
    return None;
  }

  /** `get_bbox_from_file_name`, step by step: search, search again after the
      first match's start, then peel the fields off at each '_'. */
  method GetBBoxFromFileName(path: string) returns (r: Result<BBox, CodecError>)
    ensures r == Decode(path)
  {
    var name := BaseName(path);
    var m := Search(name);
    if m.None? {
      DecodeNoMatch(name);
      return Failure(NoMatch(name));
    }
    r := ReadUniqueMatch(name, m.value.0, m.value.1);
  }

  /** The rest of `get_bbox_from_file_name` once the leftmost match [start,
      stop) of the basename is known: the second search, then the peel. */
  method ReadUniqueMatch(name: string, start: nat, stop: nat) returns (r: Result<BBox, CodecError>)
    requires MatchAt(name, start) && stop == GroupsEnd(name, start, 4)
    requires forall i :: 0 <= i < start ==> !MatchAt(name, i)
    ensures r == DecodeName(name)
  {
    var rematch := Search(name[start + 1..]);
    if rematch.Some? {
      DecodeRematch(name, start, name[start + 1..], rematch.value.0);
      return Failure(NotUnique(name));
    }
    var b := ReadMatch(name, start, stop);
    DecodeFirstAndOnly(name, start, name[start + 1..]);
    r := Success(b);
  }

  /** `name[span[0]:span[1]][1:]` and the peel of its fields. */
  method ReadMatch(name: string, start: nat, stop: nat) returns (b: BBox)
    requires MatchAt(name, start) && stop == GroupsEnd(name, start, 4)
    ensures b == FieldsAt(name, start)
  {
    MatchedText(name, start);
    GroupDigitsAreRuns(name, start, 4);
    b := ReadFields(name[start..stop][1..], GroupDigits(name, start, 4));
  }

  /** The matched text without its leading '_' is the first run followed by
      the text of the other three groups. */
  lemma MatchedText(s: string, i: nat)
    requires MatchAt(s, i)
    ensures var d := GroupDigits(s, i, 4);
      s[i..GroupsEnd(s, i, 4)][1..] == d[0] + GroupsText(d[1..])
  {
    GroupsTextAt(s, i, 4);
  }

  /** The second half of `get_bbox_from_file_name`: the text of the runs is
      peeled one field at a time, rebinding `bbox_str` after each
      `find("_")`; the last field is what remains. */
  method ReadFields(bboxStr0: string, ghost runs: seq<string>) returns (b: BBox)
    requires |runs| == 4 && DigitRuns(runs)
    requires bboxStr0 == runs[0] + GroupsText(runs[1..])
    ensures b == BBox(ParseDecimal(runs[0]), ParseDecimal(runs[1]),
                      ParseDecimal(runs[2]), ParseDecimal(runs[3]))
  {
    var bboxStr := bboxStr0;
    var x0, y0, x1;
    x0, bboxStr := TakeField(bboxStr, runs);
    y0, bboxStr := TakeField(bboxStr, runs[1..]);
    x1, bboxStr := TakeField(bboxStr, runs[2..]);
    assert bboxStr == runs[3];
    var y1 := ParseDecimal(bboxStr);
    b := BBox(x0, y0, x1, y1);
  }

  /** One step of the peel: `uscore = bbox_str.find("_")`, the int before
      it, and `bbox_str = bbox_str[uscore+1:]`. */
  method TakeField(bboxStr: string, ghost runs: seq<string>) returns (field: nat, rest: string)
    requires |runs| >= 2 && DigitRuns(runs)
    requires bboxStr == runs[0] + GroupsText(runs[1..])
    ensures field == ParseDecimal(runs[0])
    ensures rest == runs[1] + GroupsText(runs[2..])
  {
    ghost var n := |runs[0]|;
    ghost var tail := runs[1] + GroupsText(runs[2..]);
    assert runs[1..][1..] == runs[2..];
    assert bboxStr == runs[0] + "_" + tail;
    assert bboxStr[..n] == runs[0];
    FindAfterDigits(bboxStr, n);
    var uscore := Find(bboxStr, '_');
    field := ParseDecimal(bboxStr[0..uscore]);
    rest := bboxStr[uscore + 1..];
    assert rest == tail;
  }

  /** The first '_' after a run of digits is the one that ends it. */
  lemma FindAfterDigits(t: string, n: nat)
    requires n < |t| && AllDigits(t[..n]) && t[n] == '_'
    ensures Find(t, '_') == n
  {
    assert forall j :: 0 <= j < n ==> t[j] == t[..n][j];
  }

  lemma DecodeNoMatch(name: string)
    requires forall i :: 0 <= i < |name| ==> !MatchAt(name, i)
    ensures DecodeName(name) == Failure(NoMatch(name))
  {
  }

  /** A match in the text after the first match's first character is a
      second match. */
  lemma DecodeRematch(name: string, start: nat, rest: string, j: nat)
    requires MatchAt(name, start) && rest == name[start + 1..] && MatchAt(rest, j)
    ensures DecodeName(name) == Failure(NotUnique(name))
  {
    MatchInSuffix(name, start + 1, j);
    DecodeTwoMatches(name, start, start + 1 + j);
  }

  lemma DecodeTwoMatches(name: string, i: int, j: int)
    requires i < j && MatchAt(name, i) && MatchAt(name, j)
    ensures DecodeName(name) == Failure(NotUnique(name))
  {
  }

  /** A leftmost match with no match in the text after its first character
      is the one match DecodeName reads. */
  lemma DecodeFirstAndOnly(name: string, start: nat, rest: string)
    requires MatchAt(name, start) && rest == name[start + 1..]
    requires forall i :: 0 <= i < start ==> !MatchAt(name, i)
    requires forall i :: 0 <= i < |rest| ==> !MatchAt(rest, i)
    ensures DecodeName(name) == Success(FieldsAt(name, start))
  {
    NoMatchAfter(name, start, rest);
    DecodeOnlyMatch(name, start);
  }

  lemma NoMatchAfter(name: string, start: nat, rest: string)
    requires start < |name| && rest == name[start + 1..]
    requires forall i :: 0 <= i < |rest| ==> !MatchAt(rest, i)
    ensures forall j :: start < j < |name| ==> !MatchAt(name, j)
  {
    forall j | start < j < |name|
      ensures !MatchAt(name, j)
    {
      MatchInSuffix(name, start + 1, j - start - 1);
    }
  }

  lemma DecodeOnlyMatch(name: string, i: int)
    requires MatchAt(name, i)
    requires forall j :: 0 <= j < |name| && j != i ==> !MatchAt(name, j)
    ensures DecodeName(name) == Success(FieldsAt(name, i))
  {
  }

  /** Only the basename is read: a directory in front of a name never
      changes what it decodes to. */
  lemma DecodeIgnoresDirectory(dir: string, name: string)
    requires '/' !in name
    ensures Decode(Join(dir, name)) == Decode(name) == DecodeName(name)
  {
    BaseNameOfJoin(dir, name);
  }

  /** A second match that overlaps the first is enough to reject a name:
      in "a_1_2_3_4_5" matches start at 1 and at 3. */
  lemma OverlappingMatchRejected()
    ensures DecodeName("a_1_2_3_4_5") == Failure(NotUnique("a_1_2_3_4_5"))
  {
    var s := "a_1_2_3_4_5";
    RunEndIs(s, 2, 3);
    RunEndIs(s, 4, 5);
    RunEndIs(s, 6, 7);
    RunEndIs(s, 8, 9);
    RunEndIs(s, 10, 11);
    DecodeTwoMatches(s, 1, 3);
  }

  // ---------------------------------------------------------------- the name format

  /** A field as `%d` prints it: a digit or a minus sign, then digits. */
  predicate PrintedInt(t: string) {
    |t| > 0 && (t[0] == '-' || IsDigit(t[0])) && AllDigits(t[1..])
  }

  lemma FormatIntPrinted(i: int)
    ensures PrintedInt(FormatInt(i))
    ensures IsDigit(FormatInt(i)[0]) <==> i >= 0
  {
    FormatIntChars(i);
  }

  /** The values of a box in the order the stub prints them, as `%d` prints them. */
  function Spelt(b: BBox): (toks: seq<string>)
    ensures |toks| == 4 && AllPrinted(toks)
  {
    FormatIntPrinted(b.x0);
    FormatIntPrinted(b.y0);
    FormatIntPrinted(b.x1);
    FormatIntPrinted(b.y1);
    var toks := [FormatInt(b.x0), FormatInt(b.y0), FormatInt(b.x1), FormatInt(b.y1)];
    assert AllPrinted(toks[3..]) by { assert toks[3..][1..] == []; }
    assert toks[2..][1..] == toks[3..];
    assert toks[1..][1..] == toks[2..];
    toks
  }

  /** `g_hlstb_stub % (x0, y0, x1, y1)` with the stub "hls_tb_ark_%d_%d_%d_%d.npy":
      the stem, the four printed fields each after a '_', and the extension. */
  function HlsTbName(b: BBox): (name: string)
    ensures StartsWith(name, "hls_tb_ark") && name[10..] == GroupsText(Spelt(b)) + ".npy"
  {
    "hls_tb_ark" + GroupsText(Spelt(b)) + ".npy"
  }

  /** The name is the stub with the four values printed into it in order. */
  lemma HlsTbNameIsStub(b: BBox)
    ensures HlsTbName(b) == "hls_tb_ark_" + FormatInt(b.x0) + "_" + FormatInt(b.y0) + "_" +
                            FormatInt(b.x1) + "_" + FormatInt(b.y1) + ".npy"
  {
    var toks := Spelt(b);
    assert GroupsText(toks[3..]) == "_" + toks[3] + "" by { assert toks[3..][1..] == []; }
    assert GroupsText(toks[2..]) == "_" + toks[2] + GroupsText(toks[3..]) by { assert toks[2..][1..] == toks[3..]; }
    assert GroupsText(toks[1..]) == "_" + toks[1] + GroupsText(toks[2..]) by { assert toks[1..][1..] == toks[2..]; }
    assert GroupsText(toks) == "_" + toks[0] + ("_" + toks[1] + ("_" + toks[2] + ("_" + toks[3] + "")));
    Regroup(toks[0], toks[1], toks[2], toks[3]);
  }

  lemma Regroup(a: string, b: string, c: string, d: string)
    ensures "hls_tb_ark" + ("_" + a + ("_" + b + ("_" + c + ("_" + d + "")))) + ".npy" ==
            "hls_tb_ark_" + a + "_" + b + "_" + c + "_" + d + ".npy"
  {
  }

  /** `pj(dir, g_hlstb_stub % ...)`: where `load_tb_chips` reads and
      `save_tb_chips` writes the chips of a box. */
  function TbChipsPath(dir: string, b: BBox): (path: string)
    ensures BaseName(path) == HlsTbName(b)
  {
    HlsTbNameChars(b);
    BaseNameOfJoin(dir, HlsTbName(b));
    Join(dir, HlsTbName(b))
  }

  /** The text of printed fields holds only '_', '-' and digits. */
  lemma {:induction false} GroupsTextChars(toks: seq<string>)
    requires AllPrinted(toks)
    ensures forall k :: 0 <= k < |GroupsText(toks)| ==>
      GroupsText(toks)[k] == '_' || GroupsText(toks)[k] == '-' || IsDigit(GroupsText(toks)[k])
    decreases |toks|
  {
    if toks != [] {
      GroupsTextChars(toks[1..]);
      var f := toks[0];
      var t := GroupsText(toks[1..]);
      var s := GroupsText(toks);
      assert s == "_" + f + t;
      assert forall k :: 1 < k < 1 + |f| ==> s[k] == f[1..][k - 2];
      assert forall k :: 1 + |f| <= k < |s| ==> s[k] == t[k - 1 - |f|];
    }
  }

  lemma HlsTbNameChars(b: BBox)
    ensures '/' !in HlsTbName(b)
  {
    var toks := Spelt(b);
    GroupsTextChars(toks);
    var f := GroupsText(toks);
    var name := HlsTbName(b);
    assert name == "hls_tb_ark" + f + ".npy";
    assert forall k :: 10 <= k < 10 + |f| ==> name[k] == f[k - 10];
  }

  /** Printed fields, one after the other. */
  predicate AllPrinted(toks: seq<string>) {
    toks == [] || (PrintedInt(toks[0]) && AllPrinted(toks[1..]))
  }

  /** The first k printed fields carry no minus sign. */
  predicate LeadingDigits(toks: seq<string>, k: nat)
    requires k <= |toks| && AllPrinted(toks)
  {
    k == 0 || (IsDigit(toks[0][0]) && LeadingDigits(toks[1..], k - 1))
  }

  /** A printed field whose first character is a digit is all digits. */
  lemma PrintedDigits(f: string)
    requires PrintedInt(f) && IsDigit(f[0])
    ensures AllDigits(f)
  {
    assert forall i :: 1 <= i < |f| ==> f[i] == f[1..][i - 1];
  }

  /** Printed fields written out as groups: a '_', the first field, and then
      the text of the other fields, which starts with '_' if there are any. */
  lemma HeadText(toks: seq<string>, rest: string)
    requires toks != [] && AllPrinted(toks)
    requires rest == [] || !IsDigit(rest[0])
    ensures var s := GroupsText(toks) + rest;
      var e := 1 + |toks[0]|;
      && e <= |s| && s[0] == '_' && s[1..e] == toks[0]
      && s[e..] == GroupsText(toks[1..]) + rest
      && (e == |s| || !IsDigit(s[e]))
  {
    var tail := GroupsText(toks[1..]) + rest;
    Unglue(GroupsText(toks[1..]), rest, toks[0], GroupsText(toks) + rest);
    TextStart(toks[1..], rest);
  }

  /** Where the first field ends in "_" + f + g + rest. */
  lemma Unglue(g: string, rest: string, f: string, s: string)
    requires s == "_" + f + g + rest
    ensures 1 + |f| <= |s| && s[0] == '_' && s[1..1 + |f|] == f && s[1 + |f|..] == g + rest
  {
    assert s == "_" + f + (g + rest);
  }

  /** The text of printed fields followed by rest starts with '_' or with
      rest. */
  lemma TextStart(toks: seq<string>, rest: string)
    requires rest == [] || !IsDigit(rest[0])
    ensures var t := GroupsText(toks) + rest; t == [] || !IsDigit(t[0])
  {
    if toks != [] {
      assert (GroupsText(toks) + rest)[0] == '_';
    }
  }

  /** The first group of printed fields: its run of digits covers the whole
      field when the field has no minus sign, and is empty otherwise. */
  lemma HeadGroup(toks: seq<string>, rest: string)
    requires toks != [] && AllPrinted(toks)
    requires rest == [] || !IsDigit(rest[0])
    ensures var s := GroupsText(toks) + rest;
      var e := 1 + |toks[0]|;
      && e <= |s| && s[0] == '_' && s[e..] == GroupsText(toks[1..]) + rest
      && (IsDigit(toks[0][0]) ==> RunEnd(s, 1) == e)
      && (!IsDigit(toks[0][0]) ==> RunEnd(s, 1) == 1)
  {
    HeadText(toks, rest);
    FieldRun(GroupsText(toks) + rest, toks[0]);
  }

  /** Indices lo to hi - 1 of s hold no '_'. */
  predicate NoUnderscore(s: string, lo: nat, hi: nat)
    requires hi <= |s|
  {
    forall i :: lo <= i < hi ==> s[i] != '_'
  }

  /** No '_' comes before the group that follows the first field. */
  lemma HeadField(toks: seq<string>, rest: string)
    requires toks != [] && AllPrinted(toks)
    requires rest == [] || !IsDigit(rest[0])
    ensures var s := GroupsText(toks) + rest;
      var e := 1 + |toks[0]|;
      && e <= |s| && s[e..] == GroupsText(toks[1..]) + rest
      && NoUnderscore(s, 1, e)
  {
    HeadText(toks, rest);
    FieldRun(GroupsText(toks) + rest, toks[0]);
  }

  /** The first group of printed fields without a minus sign: its run is
      the whole first field. */
  lemma HeadRun(toks: seq<string>, rest: string)
    requires toks != [] && AllPrinted(toks) && IsDigit(toks[0][0])
    requires rest == [] || !IsDigit(rest[0])
    ensures var s := GroupsText(toks) + rest;
      var e := 1 + |toks[0]|;
      && e <= |s| && s[0] == '_' && s[e..] == GroupsText(toks[1..]) + rest
      && RunEnd(s, 1) == e && s[1..e] == toks[0]
  {
    HeadText(toks, rest);
    var s := GroupsText(toks) + rest;
    FieldRunLength(s, toks[0]);
  }

  lemma FieldRunLength(s: string, f: string)
    requires PrintedInt(f) && IsDigit(f[0]) && 1 + |f| <= |s| && s[1..1 + |f|] == f
    requires 1 + |f| == |s| || !IsDigit(s[1 + |f|])
    ensures RunEnd(s, 1) == 1 + |f|
  {
    FieldRun(s, f);
  }


  /** A printed field f at index 1 of s, followed by a non-digit or the end:
      the digit run at 1 covers f when f has no minus sign, and is empty
      otherwise. */
  lemma FieldRun(s: string, f: string)
    requires PrintedInt(f) && 1 + |f| <= |s| && s[1..1 + |f|] == f
    requires 1 + |f| == |s| || !IsDigit(s[1 + |f|])
    ensures forall i :: 1 <= i < 1 + |f| ==> s[i] != '_'
    ensures IsDigit(f[0]) ==> RunEnd(s, 1) == 1 + |f|
    ensures !IsDigit(f[0]) ==> RunEnd(s, 1) == 1
  {
    var e := 1 + |f|;
    assert forall i :: 1 <= i < e ==> s[i] == f[i - 1];
    if IsDigit(f[0]) {
      PrintedDigits(f);
      RunEndIs(s, 1, e);
    } else {
      RunEndIs(s, 1, 1);
    }
  }

  /** Runs of digits written out as groups are matched group by group from
      the start, and read back as the same runs. */
  lemma {:induction false} GroupsTextMatch(toks: seq<string>, rest: string)
    requires AllPrinted(toks) && LeadingDigits(toks, |toks|)
    requires rest == [] || !IsDigit(rest[0])
    ensures GroupsAt(GroupsText(toks) + rest, 0, |toks|)
    ensures GroupDigits(GroupsText(toks) + rest, 0, |toks|) == toks
    decreases |toks|
  {
    if toks != [] {
      GroupsTextMatch(toks[1..], rest);
      TextStep(toks, rest);
      assert [toks[0]] + toks[1..] == toks;
    }
  }

  /** The first printed field, when it has no minus sign, is matched as one
      group ahead of the groups matched in the rest of the text. */
  lemma TextStep(toks: seq<string>, rest: string)
    requires toks != [] && AllPrinted(toks) && IsDigit(toks[0][0])
    requires rest == [] || !IsDigit(rest[0])
    requires GroupsAt(GroupsText(toks[1..]) + rest, 0, |toks| - 1)
    ensures GroupsAt(GroupsText(toks) + rest, 0, |toks|)
    ensures GroupDigits(GroupsText(toks) + rest, 0, |toks|)
      == [toks[0]] + GroupDigits(GroupsText(toks[1..]) + rest, 0, |toks| - 1)
  {
    HeadRun(toks, rest);
    GroupStep(GroupsText(toks) + rest, 1 + |toks[0]|, GroupsText(toks[1..]) + rest, |toks|);
  }

  /** One group at the start of s, then k - 1 more groups in what follows. */
  lemma GroupStep(s: string, e: nat, tail: string, k: nat)
    requires 1 < e <= |s| && s[0] == '_' && RunEnd(s, 1) == e && tail == s[e..]
    requires k > 0 && GroupsAt(tail, 0, k - 1)
    ensures GroupsAt(s, 0, k)
    ensures GroupDigits(s, 0, k) == [s[1..e]] + GroupDigits(tail, 0, k - 1)
  {
    GroupsInTail(s, e, tail, 0, e, k - 1);
  }

  /** Groups matched from the start of printed fields cover no more fields
      than there are, and only ones printed without a minus sign. */
  lemma {:induction false} GroupsFromStart(toks: seq<string>, rest: string, k: nat)
    requires AllPrinted(toks)
    requires '_' !in rest && (rest == [] || !IsDigit(rest[0]))
    requires k >= 1 && GroupsAt(GroupsText(toks) + rest, 0, k)
    ensures k <= |toks| && LeadingDigits(toks, k)
    decreases |toks|
  {
    if toks != [] {
      FirstGroup(toks, rest, k);
      if k > 1 {
        GroupsFromStart(toks[1..], rest, k - 1);
      }
    }
  }

  /** A match from the start of printed fields takes the first field as its
      first group, so that field has no minus sign, and the other groups
      match from the start of the text of the other fields. */
  lemma FirstGroup(toks: seq<string>, rest: string, k: nat)
    requires toks != [] && AllPrinted(toks)
    requires rest == [] || !IsDigit(rest[0])
    requires k >= 1 && GroupsAt(GroupsText(toks) + rest, 0, k)
    ensures IsDigit(toks[0][0]) && GroupsAt(GroupsText(toks[1..]) + rest, 0, k - 1)
  {
    HeadGroup(toks, rest);
    FirstGroupAt(GroupsText(toks) + rest, 1 + |toks[0]|, GroupsText(toks[1..]) + rest, k, IsDigit(toks[0][0]));
  }

  /** A match at 0 of s, whose digit run at 1 ends at e when `digit` holds
      and is empty otherwise: then `digit` holds and the other groups match
      at the start of s[e..]. */
  lemma FirstGroupAt(s: string, e: nat, tail: string, k: nat, digit: bool)
    requires 0 < e <= |s| && tail == s[e..]
    requires digit ==> RunEnd(s, 1) == e
    requires !digit ==> RunEnd(s, 1) == 1
    requires k >= 1 && GroupsAt(s, 0, k)
    ensures digit && GroupsAt(tail, 0, k - 1)
  {
    GroupsAtInSuffix(s, e, tail, 0, e, k - 1);
  }

  /** Groups matched past the start of printed fields start at a later
      field, so they cover fewer fields than there are. */
  lemma {:induction false} GroupsPastStart(toks: seq<string>, rest: string, j: nat, k: nat)
    requires AllPrinted(toks)
    requires '_' !in rest && (rest == [] || !IsDigit(rest[0]))
    requires 0 < j <= |GroupsText(toks) + rest| && k >= 1 && GroupsAt(GroupsText(toks) + rest, j, k)
    ensures k < |toks|
    decreases |toks|
  {
    if toks != [] {
      var e := 1 + |toks[0]|;
      PastFirst(toks, rest, j, k);
      if j == e {
        GroupsFromStart(toks[1..], rest, k);
      } else {
        GroupsPastStart(toks[1..], rest, j - e, k);
      }
    }
  }

  /** Groups matched past the start of printed fields are groups matched
      in the text of the fields after the first. */
  lemma PastFirst(toks: seq<string>, rest: string, j: nat, k: nat)
    requires toks != [] && AllPrinted(toks)
    requires rest == [] || !IsDigit(rest[0])
    requires 0 < j <= |GroupsText(toks) + rest| && k >= 1 && GroupsAt(GroupsText(toks) + rest, j, k)
    ensures 1 + |toks[0]| <= j && GroupsAt(GroupsText(toks[1..]) + rest, j - (1 + |toks[0]|), k)
  {
    var s, e, tail := GroupsText(toks) + rest, 1 + |toks[0]|, GroupsText(toks[1..]) + rest;
    HeadField(toks, rest);
    PastFieldAt(s, e, tail, j, k);
  }

  /** Groups matched at j > 0 of s, whose indices 1 to e - 1 hold no '_':
      j is past them, and the groups match in s[e..]. */
  lemma PastFieldAt(s: string, e: nat, tail: string, j: nat, k: nat)
    requires 0 < e <= |s| && tail == s[e..]
    requires NoUnderscore(s, 1, e)
    requires 0 < j <= |s| && k >= 1 && GroupsAt(s, j, k)
    ensures e <= j && GroupsAt(tail, j - e, k)
  {
    GroupsAtInSuffix(s, e, tail, j - e, j, k);
  }

  /** No index of the stem "hls_tb_ark" starts a match. */
  lemma NoMatchInStem(name: string)
    requires StartsWith(name, "hls_tb_ark")
    ensures forall i :: 0 <= i < 10 ==> !MatchAt(name, i)
  {
    assert name[..10] == "hls_tb_ark";
    forall i | 0 <= i < 10
      ensures !MatchAt(name, i)
    {
      assert name[i] == "hls_tb_ark"[i];
      if name[i] == '_' {
        assert name[i + 1] == "hls_tb_ark"[i + 1];
        RunEndIs(name, i + 1, i + 1);
      }
    }
  }

  /** Past the stem, a match in a chips name is a match in its fields. */
  lemma MatchPastStem(b: BBox, i: int)
    requires 10 <= i
    ensures var name := HlsTbName(b);
      var s := GroupsText(Spelt(b)) + ".npy";
      MatchAt(name, i) <==> i - 10 < |s| && GroupsAt(s, i - 10, 4)
  {
    var name := HlsTbName(b);
    if i <= |name| {
      GroupsAtInSuffix(name, 10, name[10..], i - 10, i, 4);
    }
  }

  /** A box is non-negative exactly when none of its printed values has a
      minus sign, and then they are printed as plain decimals. */
  lemma SpeltLeadingDigits(b: BBox)
    ensures LeadingDigits(Spelt(b), 4) <==> NonNegative(b)
    ensures NonNegative(b) ==>
      Spelt(b) == [FormatDecimal(b.x0), FormatDecimal(b.y0), FormatDecimal(b.x1), FormatDecimal(b.y1)]
  {
    var toks := Spelt(b);
    FormatIntPrinted(b.x0);
    FormatIntPrinted(b.y0);
    FormatIntPrinted(b.x1);
    FormatIntPrinted(b.y1);
    assert toks[1..][1..] == toks[2..] && toks[2..][1..] == toks[3..];
    assert LeadingDigits(toks[3..], 1) <==> IsDigit(toks[3][0]);
    assert LeadingDigits(toks[2..], 2) <==> IsDigit(toks[2][0]) && LeadingDigits(toks[3..], 1);
    assert LeadingDigits(toks[1..], 3) <==> IsDigit(toks[1][0]) && LeadingDigits(toks[2..], 2);
  }

  /** The only possible match in a chips name starts its fields, and it is
      there exactly when no coordinate is negative. */
  lemma MatchesInHlsTbName(b: BBox)
    ensures forall i :: 0 <= i < |HlsTbName(b)| && i != 10 ==> !MatchAt(HlsTbName(b), i)
    ensures MatchAt(HlsTbName(b), 10) <==> NonNegative(b)
  {
    var name := HlsTbName(b);
    var toks := Spelt(b);
    NoMatchInStem(name);
    SpeltLeadingDigits(b);
    forall i | 10 <= i < |name| && MatchAt(name, i)
      ensures i == 10 && NonNegative(b)
    {
      MatchInFields(b, i);
    }
    if NonNegative(b) {
      GroupsTextMatch(toks, ".npy");
      MatchPastStem(b, 10);
    }
  }

  /** A match past the stem of a chips name starts the fields, and then no
      field has a minus sign. */
  lemma MatchInFields(b: BBox, i: int)
    requires 10 <= i < |HlsTbName(b)| && MatchAt(HlsTbName(b), i)
    ensures i == 10 && NonNegative(b)
  {
    var toks := Spelt(b);
    MatchPastStem(b, i);
    NpyRest();
    SpeltLeadingDigits(b);
    if i == 10 {
      GroupsFromStart(toks, ".npy", 4);
    } else {
      GroupsPastStart(toks, ".npy", i - 10, 4);
    }
  }

  lemma NpyRest()
    ensures '_' !in ".npy" && !IsDigit(".npy"[0])
  {
  }

  /** The round trip: the chips name of a box with no negative coordinate
      decodes to that box. */
  lemma DecodeHlsTbName(b: BBox)
    requires NonNegative(b)
    ensures Decode(HlsTbName(b)) == Success(b)
  {
    var name := HlsTbName(b);
    var toks := Spelt(b);
    HlsTbNameChars(b);
    MatchesInHlsTbName(b);
    DecodeOnlyMatch(name, 10);
    SpeltLeadingDigits(b);
    GroupsTextMatch(toks, ".npy");
    GroupDigitsInSuffix(name, 10, name[10..], 0, 10, 4);
  }

  /** `%d` prints a minus sign that the pattern cannot match, so the chips
      name of a box with a negative coordinate does not decode. */
  lemma NegativeNotDecodable(b: BBox)
    requires !NonNegative(b)
    ensures Decode(HlsTbName(b)) == Failure(NoMatch(HlsTbName(b)))
  {
    var name := HlsTbName(b);
    HlsTbNameChars(b);
    MatchesInHlsTbName(b);
    DecodeNoMatch(name);
  }

  /** The directory a chips file sits in does not change what it decodes to. */
  lemma DecodeTbChipsPath(dir: string, b: BBox)
    ensures Decode(TbChipsPath(dir, b)) == Decode(HlsTbName(b))
    ensures NonNegative(b) ==> Decode(TbChipsPath(dir, b)) == Success(b)
  {
    if NonNegative(b) {
      DecodeHlsTbName(b);
    }
  }
}
