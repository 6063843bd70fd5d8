/**
 * The bookkeeping of `process_images`: which directory entries are sampled,
 * the 22-cell summary rows, the `_cropped` name of each saved crop, the
 * notices for skipped files and failed saves, and the empty-batch rule.
 *
 * The file system is abstracted away: the directory listing arrives as a
 * sequence of entries, each carrying its decode result and whether saving its
 * crop succeeds; whether the folder exists and whether the workbook can be
 * written are parameters.
 */
module Batch {
  import opened Wrappers
  import opened Statistics
  import opened Sampler

  /** The crop fraction `process_images` passes (the default argument 0.15). */
  const Percentage: real := 0.15

  // ---------------------------------------------------------------------------
  // File names

  /** `str.lower()` on ASCII letters; other characters are unchanged. */
  function LowerChar(c: char): char
  {
    if 'A' <= c <= 'Z' then (c as int - 'A' as int + 'a' as int) as char else c
  }

  function Lower(s: string): string
  {
    seq(|s|, i requires 0 <= i < |s| => LowerChar(s[i]))
  }

  predicate EndsWith(s: string, suffix: string)
  {
    |suffix| <= |s| && s[|s| - |suffix|..] == suffix
  }

  /** `filename.lower().endswith(('.jpg', '.jpeg'))`. */
  predicate IsJpegName(name: string)
  {
    EndsWith(Lower(name), ".jpg") || EndsWith(Lower(name), ".jpeg")
  }

  /** Lowering twice is lowering once. */
  lemma LowerIdempotent(s: string)
    ensures Lower(Lower(s)) == Lower(s)
  {
    var once := Lower(s);
    assert forall i :: 0 <= i < |s| ==> Lower(once)[i] == LowerChar(LowerChar(s[i])) == once[i];
  }

  /** The filter ignores case: a name and its lowercase form are accepted alike. */
  lemma IsJpegNameCaseInsensitive(name: string)
    ensures IsJpegName(Lower(name)) <==> IsJpegName(name)
  {
    LowerIdempotent(name);
  }

  /** Upper- and mixed-case extensions pass the filter; a `.jpg` that is not the suffix, or no dot, does not. */
  lemma JpegNameExamples()
    ensures IsJpegName("a.JPG") && IsJpegName("b.Jpeg")
    ensures !IsJpegName("c.jpg.png") && !IsJpegName("jpg")
  {
    assert Lower("a.JPG") == "a.jpg";
    assert Lower("a.jpg")[1..] == ".jpg";
    assert Lower("b.Jpeg") == "b.jpeg";
    assert Lower("b.jpeg")[1..] == ".jpeg";
    assert Lower("c.jpg.png") == "c.jpg.png";
    assert Lower("c.jpg.png")[4] == 'g' && Lower("c.jpg.png")[6] == 'p';
    assert Lower("jpg") == "jpg";
  }

  /** The index of the last occurrence of `c` in `s`, or -1 (`str.rfind`). */
  function RFind(s: string, c: char): (r: int)
    ensures -1 <= r < |s|
    ensures 0 <= r ==> s[r] == c
    ensures forall i :: r < i < |s| ==> s[i] != c
  {
    if |s| == 0 then -1
    else if s[|s| - 1] == c then |s| - 1
    else RFind(s[..|s| - 1], c)
  }

  /** Index `i` of `p` lies in the base name: no '/' at or after it. */
  predicate InBasename(p: string, i: int)
  {
    0 <= i < |p| && forall j :: i <= j < |p| ==> p[j] != '/'
  }

  /** Every base-name character before index `d` is a dot. */
  predicate LeadingDots(p: string, d: int)
  {
    forall i :: 0 <= i < d && InBasename(p, i) ==> p[i] == '.'
  }

  /**
   * `os.path.splitext` (POSIX): the extension starts at the last dot after the
   * last '/', unless everything between that '/' and the dot is dots.
   */
  function Splitext(p: string): (r: (string, string))
    ensures r.0 + r.1 == p
    ensures r.1 == "" || (r.1[0] == '.' && forall i :: 1 <= i < |r.1| ==> r.1[i] != '.' && r.1[i] != '/')
    ensures r.1 == "" ==> forall d :: InBasename(p, d) && p[d] == '.' ==> LeadingDots(p, d)
    ensures r.1 != "" ==> InBasename(p, |r.0|) && !LeadingDots(p, |r.0|)
  {
    var sepIndex := RFind(p, '/');
    var dotIndex := RFind(p, '.');
    assert forall d :: InBasename(p, d) ==> sepIndex < d;
    if dotIndex > sepIndex && exists i :: sepIndex + 1 <= i < dotIndex && p[i] != '.' then
      assert p[..dotIndex] + p[dotIndex..] == p;
      (p[..dotIndex], p[dotIndex..])
    else
      assert p + "" == p;
      (p, "")
  }

  /** `f"{base}_cropped{ext}"` for `base, ext = os.path.splitext(filename)`. */
  function CroppedName(name: string): string
  {
    var (base, ext) := Splitext(name);
    base + "_cropped" + ext
  }

  // ---------------------------------------------------------------------------
  // Rows

  const Header: seq<string> := [
    "Filename",
    "Mean R", "Mean G", "Mean B",
    "Median R", "Median G", "Median B",
    "Min R", "Min G", "Min B",
    "Max R", "Max G", "Max B",
    "Q1 R", "Q1 G", "Q1 B",
    "Q3 R", "Q3 G", "Q3 B",
    "IQR Mean R", "IQR Mean G", "IQR Mean B"]

  /** A data row of the summary sheet: the file name, then 21 integers. */
  datatype Row = Row(filename: string, values: seq<int>)

  function ChannelIndex(c: Channel): nat
  {
    match c
    case Red => 0
    case Green => 1
    case Blue => 2
  }

  /** Lines 203-212: the statistics in the order mean, median, min, max, q1, q3, iqr_mean, each as R, G, B. */
  function RowOf(filename: string, st: Stats): (row: Row)
    ensures row.filename == filename && |row.values| == 21
    ensures forall k: nat, c: Channel :: k < 7 ==> row.values[3 * k + ChannelIndex(c)] == st.Of(c).Field(k)
  {
    var r, g, b := st.red, st.green, st.blue;
    Row(filename, [r.mean, g.mean, b.mean, r.median, g.median, b.median,
                   r.min, g.min, b.min, r.max, g.max, b.max,
                   r.q1, g.q1, b.q1, r.q3, g.q3, b.q3,
                   r.iqrMean, g.iqrMean, b.iqrMean])
  }

  const StatNames: seq<string> := ["Mean", "Median", "Min", "Max", "Q1", "Q3", "IQR Mean"]

  function ChannelLetter(c: Channel): string
  {
    match c
    case Red => "R"
    case Green => "G"
    case Blue => "B"
  }

  /** Every data cell sits under the header naming its statistic and channel. */
  lemma HeaderLabelsRow(filename: string, st: Stats)
    ensures |Header| == 1 + |RowOf(filename, st).values|
    ensures Header[0] == "Filename"
    ensures forall k: nat, c: Channel :: k < 7 ==> Header[1 + 3 * k + ChannelIndex(c)] == StatNames[k] + " " + ChannelLetter(c)
  {
    forall k: nat, c: Channel | k < 7
      ensures Header[1 + 3 * k + ChannelIndex(c)] == StatNames[k] + " " + ChannelLetter(c)
    {
      match c
      case Red => {}
      case Green => {}
      case Blue => {}
    }
  }

  // ---------------------------------------------------------------------------
  // The batch

  /** One directory entry: its name, its decode result (`None` when Pillow cannot open it) and whether writing its crop file succeeds. */
  datatype Entry = Entry(name: string, decoded: Option<Image>, cropSaves: bool)

  datatype Notice = Skipped(filename: string) | CropSaveFailed(croppedName: string)

  datatype CropFile = CropFile(name: string, image: Image)

  /** Where the run ended: lines 166-169, 229-238, 245-247 and 248-250. */
  datatype Finish = InvalidFolder | NothingProcessed | Completed | WorkbookSaveFailed

  datatype Progress = Progress(rows: seq<Row>, crops: seq<CropFile>, notices: seq<Notice>)

  datatype BatchOutcome = BatchOutcome(rows: seq<Row>, crops: seq<CropFile>, notices: seq<Notice>, finish: Finish)

  /** `get_middle_rectangle_rgb_stats(image_path)` for one entry; a decode failure is the failure value. */
  function SampleEntry(e: Entry): Option<SampleResult>
  {
    match e.decoded
    case None => None
    case Some(img) => Sample(img, Percentage)
  }

  /*
   * The loop is stated over the per-file sampling call `sampleOf`, so that the
   * bookkeeping lemmas below hold whatever that call returns; `Batch` and
   * `ProcessImages` use the real sampler, `SampleEntry`.
   */

  /** The entries that yield a row: a JPEG name whose sampling succeeded. */
  predicate Sampled(sampleOf: Entry -> Option<SampleResult>, e: Entry)
  {
    IsJpegName(e.name) && sampleOf(e).Some?
  }

  /** The row a sampled entry contributes. */
  function RowFor(sampleOf: Entry -> Option<SampleResult>, e: Entry): Row
    requires Sampled(sampleOf, e)
  {
    RowOf(e.name, sampleOf(e).value.stats)
  }

  /**
   * Whether `cropped_img.save(save_path)` succeeds: Pillow picks the format from
   * the extension and raises when there is none, which happens exactly when
   * `splitext` finds no extension in the file name (the crop's name then has
   * none either); otherwise the outcome of writing the file is the entry's
   * `cropSaves`.
   */
  predicate CropSaveSucceeds(e: Entry)
  {
    Splitext(e.name).1 != "" && e.cropSaves
  }

  /** A sampled entry whose crop is saved. */
  predicate SavesCrop(sampleOf: Entry -> Option<SampleResult>, e: Entry)
  {
    Sampled(sampleOf, e) && CropSaveSucceeds(e)
  }

  /** The crop file a sampled entry's save writes. */
  function CropFor(sampleOf: Entry -> Option<SampleResult>, e: Entry): CropFile
    requires Sampled(sampleOf, e)
  {
    CropFile(CroppedName(e.name), sampleOf(e).value.cropped)
  }

  /** One iteration of the loop of lines 196-227. */
  function Step(sampleOf: Entry -> Option<SampleResult>, acc: Progress, e: Entry): Progress
  {
    if !IsJpegName(e.name) then acc
    else
      match sampleOf(e)
      case None => acc.(notices := acc.notices + [Skipped(e.name)])
      case Some(res) =>
        var rows := acc.rows + [RowOf(e.name, res.stats)];
        if CropSaveSucceeds(e) then Progress(rows, acc.crops + [CropFile(CroppedName(e.name), res.cropped)], acc.notices)
        else Progress(rows, acc.crops, acc.notices + [CropSaveFailed(CroppedName(e.name))])
  }

  /** The state after the loop has visited `entries` in order. */
  function Run(sampleOf: Entry -> Option<SampleResult>, entries: seq<Entry>): Progress
  {
    if |entries| == 0 then Progress([], [], [])
    else Step(sampleOf, Run(sampleOf, entries[..|entries| - 1]), entries[|entries| - 1])
  }

  /** The whole of `process_images`: a missing folder stops at once; no rows means no workbook. */
  function Batch(folderIsDir: bool, listing: seq<Entry>, workbookSaves: bool): BatchOutcome
  {
    if !folderIsDir then BatchOutcome([], [], [], InvalidFolder)
    else
      var acc := Run(SampleEntry, listing);
      var finish := if |acc.rows| == 0 then NothingProcessed
                    else if workbookSaves then Completed else WorkbookSaveFailed;
      BatchOutcome(acc.rows, acc.crops, acc.notices, finish)
  }

  /** The sheet written to `image_colors.xlsx`, if one is written. */
  function Workbook(out: BatchOutcome): Option<(seq<string>, seq<Row>)>
  {
    if out.finish == Completed then Some((Header, out.rows)) else None
  }

  /** `process_images` as the source runs it: one pass over the listing. */
  method ProcessImages(folderIsDir: bool, listing: seq<Entry>, workbookSaves: bool) returns (out: BatchOutcome)
    ensures out == Batch(folderIsDir, listing, workbookSaves)
  {
    if !folderIsDir {
      return BatchOutcome([], [], [], InvalidFolder);
    }
    var rows: seq<Row> := [];
    var crops: seq<CropFile> := [];
    var notices: seq<Notice> := [];
    var i := 0;
    while i < |listing|
      invariant 0 <= i <= |listing|
      invariant Progress(rows, crops, notices) == Run(SampleEntry, listing[..i])
    {
      var e := listing[i];
      RunSnoc(SampleEntry, listing, i);
      if IsJpegName(e.name) {
        var result: Option<SampleResult> := None;
        if e.decoded.Some? {
          result := GetMiddleRectangleRgbStats(e.decoded.value, Percentage);
        }
        assert result == SampleEntry(e);
        if result.Some? {
          rows := rows + [RowOf(e.name, result.value.stats)];
          var croppedName := CroppedName(e.name);
          if CropSaveSucceeds(e) {
            crops := crops + [CropFile(croppedName, result.value.cropped)];
          } else {
            notices := notices + [CropSaveFailed(croppedName)];
          }
        } else {
          notices := notices + [Skipped(e.name)];
        }
      }
      i := i + 1;
    }
    assert listing[..|listing|] == listing;
    var finish := if |rows| == 0 then NothingProcessed
                  else if workbookSaves then Completed else WorkbookSaveFailed;
    out := BatchOutcome(rows, crops, notices, finish);
  }

  /** Visiting one more entry is one more `Step`. */
  lemma RunSnoc(sampleOf: Entry -> Option<SampleResult>, listing: seq<Entry>, i: nat)
    requires i < |listing|
    ensures Run(sampleOf, listing[..i + 1]) == Step(sampleOf, Run(sampleOf, listing[..i]), listing[i])
  {
    assert listing[..i + 1][..i] == listing[..i];
  }

  // ---------------------------------------------------------------------------
  // Properties

  lemma StepEffect(sampleOf: Entry -> Option<SampleResult>, acc: Progress, e: Entry)
    ensures Step(sampleOf, acc, e).rows == acc.rows + if Sampled(sampleOf, e) then [RowFor(sampleOf, e)] else []
    ensures Step(sampleOf, acc, e).crops == acc.crops + if SavesCrop(sampleOf, e) then [CropFor(sampleOf, e)] else []
    ensures !IsJpegName(e.name) ==> Step(sampleOf, acc, e) == acc
    ensures IsJpegName(e.name) && sampleOf(e).None? ==> Step(sampleOf, acc, e).notices == acc.notices + [Skipped(e.name)]
    ensures SavesCrop(sampleOf, e) ==> Step(sampleOf, acc, e).notices == acc.notices
    ensures Sampled(sampleOf, e) && !CropSaveSucceeds(e) ==>
              Step(sampleOf, acc, e).notices == acc.notices + [CropSaveFailed(CroppedName(e.name))]
  {
  }

  /** The notice a visited entry gives, if any: a skip for a JPEG that could not be sampled, a save failure for a sampled one whose crop was not saved. */
  predicate NoticeFor(sampleOf: Entry -> Option<SampleResult>, e: Entry, n: Notice)
  {
    || (IsJpegName(e.name) && sampleOf(e).None? && n == Skipped(e.name))
    || (Sampled(sampleOf, e) && !CropSaveSucceeds(e) && n == CropSaveFailed(CroppedName(e.name)))
  }

  /** The notices are exactly the skips and the save failures of the visited entries. */
  lemma {:induction false} NoticesAreFailures(sampleOf: Entry -> Option<SampleResult>, entries: seq<Entry>)
    ensures forall n :: n in Run(sampleOf, entries).notices <==>
              exists e :: e in entries && NoticeFor(sampleOf, e, n)
  {
    if |entries| > 0 {
      var init := entries[..|entries| - 1];
      var last := entries[|entries| - 1];
      NoticesAreFailures(sampleOf, init);
      assert entries == init + [last];
      StepEffect(sampleOf, Run(sampleOf, init), last);
      forall n ensures n in Run(sampleOf, entries).notices <==> exists e :: e in entries && NoticeFor(sampleOf, e, n) {
        if NoticeFor(sampleOf, last, n) {
          assert last in entries;
        }
        if exists e :: e in entries && NoticeFor(sampleOf, e, n) {
          var e :| e in entries && NoticeFor(sampleOf, e, n);
          if e != last {
            assert e in init;
          }
        }
      }
    }
  }

  /** A row is produced exactly for each sampled JPEG entry, and it is that entry's name and statistics. */
  lemma {:induction false} RowsAreSampledJpegs(sampleOf: Entry -> Option<SampleResult>, entries: seq<Entry>)
    ensures forall r :: r in Run(sampleOf, entries).rows <==>
              exists e :: e in entries && Sampled(sampleOf, e) && r == RowFor(sampleOf, e)
  {
    if |entries| > 0 {
      var init := entries[..|entries| - 1];
      var last := entries[|entries| - 1];
      RowsAreSampledJpegs(sampleOf, init);
      assert entries == init + [last];
      StepEffect(sampleOf, Run(sampleOf, init), last);
    }
  }

  function CountSampled(sampleOf: Entry -> Option<SampleResult>, entries: seq<Entry>): nat
  {
    if |entries| == 0 then 0
    else CountSampled(sampleOf, entries[..|entries| - 1]) + (if Sampled(sampleOf, entries[|entries| - 1]) then 1 else 0)
  }

  function CountSaveFailures(ns: seq<Notice>): nat
  {
    if |ns| == 0 then 0
    else CountSaveFailures(ns[..|ns| - 1]) + (if ns[|ns| - 1].CropSaveFailed? then 1 else 0)
  }

  lemma CountSaveFailuresSnoc(ns: seq<Notice>, n: Notice)
    ensures CountSaveFailures(ns + [n]) == CountSaveFailures(ns) + (if n.CropSaveFailed? then 1 else 0)
  {
    assert (ns + [n])[..|ns|] == ns;
  }

  /** One row per sampled entry; each row comes with either a saved crop or a save-failure notice. */
  lemma {:induction false} RowCount(sampleOf: Entry -> Option<SampleResult>, entries: seq<Entry>)
    ensures |Run(sampleOf, entries).rows| == CountSampled(sampleOf, entries)
    ensures |Run(sampleOf, entries).rows|
            == |Run(sampleOf, entries).crops| + CountSaveFailures(Run(sampleOf, entries).notices)
  {
    if |entries| > 0 {
      var init := entries[..|entries| - 1];
      var last := entries[|entries| - 1];
      RowCount(sampleOf, init);
      var before := Run(sampleOf, init);
      StepEffect(sampleOf, before, last);
      CountSaveFailuresSnoc(before.notices, Skipped(last.name));
      CountSaveFailuresSnoc(before.notices, CropSaveFailed(CroppedName(last.name)));
    }
  }

  /** A row is kept whether or not its crop could be saved: the rows do not depend on the save outcomes. */
  lemma {:induction false} RowsIgnoreSaveOutcome(a: seq<Entry>, b: seq<Entry>)
    requires |a| == |b|
    requires forall i :: 0 <= i < |a| ==> a[i].name == b[i].name && a[i].decoded == b[i].decoded
    ensures Run(SampleEntry, a).rows == Run(SampleEntry, b).rows
  {
    if |a| > 0 {
      var n := |a| - 1;
      RowsIgnoreSaveOutcome(a[..n], b[..n]);
      StepEffect(SampleEntry, Run(SampleEntry, a[..n]), a[n]);
      StepEffect(SampleEntry, Run(SampleEntry, b[..n]), b[n]);
      assert SampleEntry(a[n]) == SampleEntry(b[n]);
    }
  }

  /** A crop is saved exactly for each sampled JPEG whose save succeeds, under the `_cropped` name. */
  lemma {:induction false} CropsAreSavedSamples(sampleOf: Entry -> Option<SampleResult>, entries: seq<Entry>)
    ensures forall f :: f in Run(sampleOf, entries).crops <==>
              exists e :: e in entries && SavesCrop(sampleOf, e) && f == CropFor(sampleOf, e)
  {
    if |entries| > 0 {
      var init := entries[..|entries| - 1];
      var last := entries[|entries| - 1];
      CropsAreSavedSamples(sampleOf, init);
      assert entries == init + [last];
      StepEffect(sampleOf, Run(sampleOf, init), last);
    }
  }

  /** No rows, no workbook and no crops; the workbook is written exactly when there are rows and the save succeeds. */
  lemma EmptyBatchWritesNothing(folderIsDir: bool, listing: seq<Entry>, workbookSaves: bool)
    ensures var out := Batch(folderIsDir, listing, workbookSaves);
            && (Workbook(out).Some? <==> folderIsDir && |Run(SampleEntry, listing).rows| > 0 && workbookSaves)
            && (|out.rows| == 0 ==> out.crops == [] && out.finish in {InvalidFolder, NothingProcessed})
  {
    RowCount(SampleEntry, listing);
  }

  /** A folder without JPEG names: nothing is sampled, no notice is given, and no workbook is written. */
  lemma {:induction false} NoJpegsNothingProcessed(sampleOf: Entry -> Option<SampleResult>, listing: seq<Entry>)
    requires forall i :: 0 <= i < |listing| ==> !IsJpegName(listing[i].name)
    ensures Run(sampleOf, listing) == Progress([], [], [])
  {
    if |listing| > 0 {
      NoJpegsNothingProcessed(sampleOf, listing[..|listing| - 1]);
    }
  }

  /** No JPEG names in an existing folder: the run ends as "nothing processed". */
  lemma NoJpegsNoWorkbook(listing: seq<Entry>, workbookSaves: bool)
    requires forall i :: 0 <= i < |listing| ==> !IsJpegName(listing[i].name)
    ensures Batch(true, listing, workbookSaves) == BatchOutcome([], [], [], NothingProcessed)
  {
    NoJpegsNothingProcessed(SampleEntry, listing);
  }

  /** One decodable JPEG and one corrupt file named `.jpg`: exactly one row, and one skip notice. */
  lemma OneGoodOneCorrupt(listing: seq<Entry>)
    requires |listing| == 2 && Sampled(SampleEntry, listing[0])
    requires IsJpegName(listing[1].name) && listing[1].decoded == None
    ensures Run(SampleEntry, listing).rows == [RowFor(SampleEntry, listing[0])]
    ensures Skipped(listing[1].name) in Run(SampleEntry, listing).notices
  {
    var first := Run(SampleEntry, listing[..1]);
    assert listing[..1][..0] == [] && listing[..1][0] == listing[0];
    assert Run(SampleEntry, listing[..1][..0]) == Progress([], [], []);
    assert first == Step(SampleEntry, Run(SampleEntry, listing[..1][..0]), listing[..1][0]);
    StepEffect(SampleEntry, Progress([], [], []), listing[0]);
    assert Run(SampleEntry, listing) == Step(SampleEntry, first, listing[1]);
    assert SampleEntry(listing[1]) == None;
    StepEffect(SampleEntry, first, listing[1]);
  }

  /** Where the `.jpg` or `.jpeg` suffix of a JPEG name starts. */
  function JpegSuffixStart(name: string): (k: nat)
    requires IsJpegName(name)
    ensures k < |name| && Lower(name)[k] == '.'
  {
    if EndsWith(Lower(name), ".jpg") then |name| - 4 else |name| - 5
  }

  /**
   * A JPEG name from a directory listing (no '/') whose stem is not all dots
   * keeps its extension, in its original case, after `_cropped`.
   */
  lemma JpegCroppedName(name: string)
    requires IsJpegName(name)
    requires forall i :: 0 <= i < |name| ==> name[i] != '/'
    requires exists i :: 0 <= i < JpegSuffixStart(name) && name[i] != '.'
    ensures var k := JpegSuffixStart(name);
            CroppedName(name) == name[..k] + "_cropped" + name[k..]
  {
    var k := JpegSuffixStart(name);
    var low := Lower(name);
    assert low[k] == '.';
    assert name[k] == '.';
    assert forall i :: k < i < |name| ==> low[i] != '.';
    assert forall i :: k < i < |name| ==> low[i] == LowerChar(name[i]);
    assert forall i :: k < i < |name| ==> name[i] != '.';
    assert RFind(name, '/') == -1;
    assert RFind(name, '.') == k;
  }

  /** A hidden JPEG with a stem keeps its extension: `.x.jpg` is cropped to `.x_cropped.jpg`. */
  lemma HiddenStemCroppedName()
    ensures CroppedName(".x.jpg") == ".x_cropped.jpg"
  {
    var name := ".x.jpg";
    var low := Lower(name);
    assert low[2] == '.' && low[3] == 'j' && low[4] == 'p' && low[5] == 'g';
    assert low[2..] == ".jpg";
    assert EndsWith(low, ".jpg");
    assert JpegSuffixStart(name) == 2 && name[1] != '.';
    JpegCroppedName(name);
    assert name[..2] == ".x" && name[2..] == ".jpg";
  }

  /** A hidden file named only `.jpg` has no extension for `splitext`, so its crop is `.jpg_cropped`. */
  lemma HiddenJpegCroppedName()
    ensures IsJpegName(".jpg") && CroppedName(".jpg") == ".jpg_cropped"
  {
    var p := ".jpg";
    var low := Lower(p);
    assert low[0] == '.' && low[1] == 'j' && low[2] == 'p' && low[3] == 'g';
    assert low[0..] == ".jpg";
    var r := Splitext(p);
    assert r == (p, "");
  }

  /** A sampled `.jpg` never has its crop saved: Pillow finds no extension in `.jpg_cropped`, so a save-failure notice is given. */
  lemma HiddenJpegCropNeverSaved(sampleOf: Entry -> Option<SampleResult>, acc: Progress, e: Entry)
    requires e.name == ".jpg" && sampleOf(e).Some?
    ensures Step(sampleOf, acc, e).crops == acc.crops
    ensures Step(sampleOf, acc, e).notices == acc.notices + [CropSaveFailed(".jpg_cropped")]
  {
    HiddenJpegCroppedName();
    StepEffect(sampleOf, acc, e);
  }
}
