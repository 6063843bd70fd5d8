/**
 * The centre-region sampler `get_middle_rectangle_rgb_stats`: the centred crop
 * rectangle, the crop itself as sub-grid selection, the three-channel
 * normalisation of the pixel data and the per-channel statistics, with
 * `None` standing for the `(None, None)` failure result.
 *
 * Decoding and `convert('RGB')` are outside the model: an image arrives as a
 * grid of (r, g, b) pixels.
 */
module Sampler {
  import opened Wrappers
  import opened Statistics

  type Byte = x: int | 0 <= x < 256

  datatype Channel = Red | Green | Blue

  datatype Pixel = Pixel(r: Byte, g: Byte, b: Byte)
  {
    function Get(c: Channel): Byte
    {
      match c
      case Red => r
      case Green => g
      case Blue => b
    }
  }

  /** The (r, g, b, a) tuples of a four-band image. */
  datatype PixelA = PixelA(r: Byte, g: Byte, b: Byte, a: Byte)

  datatype Grid = Grid(width: nat, height: nat, rows: seq<seq<Pixel>>)
  {
    predicate WellFormed()
    {
      |rows| == height && forall y :: 0 <= y < |rows| ==> |rows[y]| == width
    }
  }

  /** A decoded RGB image: `height` rows of `width` pixels each. */
  type Image = g: Grid | g.WellFormed() witness Grid(0, 0, [])

  /** Pillow's crop box (left, top, right, bottom): columns left..right-1, rows top..bottom-1. */
  datatype Box = Box(left: int, top: int, right: int, bottom: int)

  function MaxInt(a: int, b: int): int { if a >= b then a else b }
  function MinInt(a: int, b: int): int { if a <= b then a else b }

  /**
   * Lines 92-109 as written. `//` by 2 is floor division, which Dafny's `/` is
   * for a positive divisor. The raise of `rect_width`/`rect_height` to 1 comes
   * after `right` and `bottom` are fixed and nothing reads them again, so it
   * does not appear in the box.
   */
  function MiddleRectangle(width: nat, height: nat, percentage: real): Box
  {
    var rectWidth := Trunc(width as real * percentage);
    var rectHeight := Trunc(height as real * percentage);
    var left := (width - rectWidth) / 2;
    var top := (height - rectHeight) / 2;
    var right := left + rectWidth;
    var bottom := top + rectHeight;
    Box(MaxInt(0, left), MaxInt(0, top), MinInt(width, right), MinInt(height, bottom))
  }

  /** `img.crop(box)` for a box inside the image. */
  function Crop(img: Image, box: Box): (c: Image)
    requires 0 <= box.left <= box.right <= img.width
    requires 0 <= box.top <= box.bottom <= img.height
    ensures c.width == box.right - box.left && c.height == box.bottom - box.top
    ensures forall y, x :: 0 <= y < c.height && 0 <= x < c.width ==>
              c.rows[y][x] == img.rows[box.top + y][box.left + x]
  {
    Grid(box.right - box.left, box.bottom - box.top,
         seq(box.bottom - box.top, y requires 0 <= y < box.bottom - box.top =>
           img.rows[box.top + y][box.left..box.right]))
  }

  /** `getdata()`: the pixels in row-major order. */
  function Flatten(rows: seq<seq<Pixel>>): seq<Pixel>
  {
    if |rows| == 0 then [] else rows[0] + Flatten(rows[1..])
  }

  /** The numpy array built from `getdata()`, by number of bands. */
  datatype PixelData = Gray(values: seq<Byte>) | Rgb(pixels: seq<Pixel>) | Rgba(quads: seq<PixelA>)

  /** Lines 118-121: a single band is repeated into R, G and B; a fourth band is dropped. */
  function Normalise(d: PixelData): (px: seq<Pixel>)
  {
    match d
    case Gray(v) => seq(|v|, i requires 0 <= i < |v| => Pixel(v[i], v[i], v[i]))
    case Rgb(p) => p
    case Rgba(q) => seq(|q|, i requires 0 <= i < |q| => Pixel(q[i].r, q[i].g, q[i].b))
  }

  /** `pixel_data[:, i]`: one channel's samples. */
  function ChannelValues(px: seq<Pixel>, c: Channel): (xs: seq<int>)
    ensures |xs| == |px| && InRange(xs, 0, 255)
    ensures forall i :: 0 <= i < |px| ==> xs[i] == px[i].Get(c)
  {
    seq(|px|, i requires 0 <= i < |px| => px[i].Get(c) as int)
  }

  datatype Stats = Stats(red: ChannelStats, green: ChannelStats, blue: ChannelStats)
  {
    function Of(c: Channel): ChannelStats
    {
      match c
      case Red => red
      case Green => green
      case Blue => blue
    }
  }

  /** The statistics dictionary of lines 124-157, one record per channel. */
  function StatsOfPixels(px: seq<Pixel>): Stats
    requires |px| > 0
  {
    Stats(ChannelStatsOf(ChannelValues(px, Red)),
          ChannelStatsOf(ChannelValues(px, Green)),
          ChannelStatsOf(ChannelValues(px, Blue)))
  }

  datatype SampleResult = SampleResult(stats: Stats, cropped: Image)

  /**
   * The whole sampler. A box with right < left or bottom < top makes Pillow's
   * crop raise; an empty crop makes `np.min` raise; either way the result is
   * the failure value.
   */
  function Sample(img: Image, percentage: real): Option<SampleResult>
  {
    var box := MiddleRectangle(img.width, img.height, percentage);
    if box.left > box.right || box.top > box.bottom then None
    else
      var cropped := Crop(img, box);
      var px := Normalise(Rgb(Flatten(cropped.rows)));
      if |px| == 0 then None
      else Some(SampleResult(StatsOfPixels(px), cropped))
  }

  /**
   * Lines 135-147: for each of the three channels, the truncated mean of the
   * samples within that channel's [q1, q3], or the channel's mean when none are.
   */
  method IqrMeans(channels: seq<seq<int>>, q1s: seq<int>, q3s: seq<int>, means: seq<int>)
    returns (iqrMeans: seq<int>)
    requires |channels| == |q1s| == |q3s| == |means| == 3
    ensures |iqrMeans| == 3
    ensures forall j :: 0 <= j < 3 ==> iqrMeans[j] == IqrMean(channels[j], q1s[j], q3s[j], means[j])
  {
    iqrMeans := [];
    var i := 0;
    while i < 3
      invariant 0 <= i <= 3 && |iqrMeans| == i
      invariant forall j :: 0 <= j < i ==> iqrMeans[j] == IqrMean(channels[j], q1s[j], q3s[j], means[j])
    {
      var values := channels[i];
      var inside := Between(values, q1s[i], q3s[i]);
      if |inside| > 0 {
        iqrMeans := iqrMeans + [Trunc(Mean(inside))];
      } else {
        iqrMeans := iqrMeans + [means[i]];
      }
      i := i + 1;
    }
  }

  /**
   * The sampler as the source runs it: whole-array statistics for the three
   * channels, then a loop over the channels that appends each interquartile mean.
   */
  method GetMiddleRectangleRgbStats(img: Image, percentage: real) returns (r: Option<SampleResult>)
    ensures r == Sample(img, percentage)
  {
    var box := MiddleRectangle(img.width, img.height, percentage);
    if box.left > box.right || box.top > box.bottom {
      return None;
    }
    var cropped := Crop(img, box);
    var pixelData := Normalise(Rgb(Flatten(cropped.rows)));
    if |pixelData| == 0 {
      return None;
    }
    var channels := [ChannelValues(pixelData, Red), ChannelValues(pixelData, Green), ChannelValues(pixelData, Blue)];
    var means := [Trunc(Mean(channels[0])), Trunc(Mean(channels[1])), Trunc(Mean(channels[2]))];
    var medians := [Trunc(Median(channels[0])), Trunc(Median(channels[1])), Trunc(Median(channels[2]))];
    var mins := [Min(channels[0]), Min(channels[1]), Min(channels[2])];
    var maxs := [Max(channels[0]), Max(channels[1]), Max(channels[2])];
    var q1s := [Trunc(Percentile(channels[0], 25)), Trunc(Percentile(channels[1], 25)), Trunc(Percentile(channels[2], 25))];
    var q3s := [Trunc(Percentile(channels[0], 75)), Trunc(Percentile(channels[1], 75)), Trunc(Percentile(channels[2], 75))];

    var iqrMeans := IqrMeans(channels, q1s, q3s, means);

    var red := ChannelStats(means[0], medians[0], mins[0], maxs[0], q1s[0], q3s[0], iqrMeans[0]);
    var green := ChannelStats(means[1], medians[1], mins[1], maxs[1], q1s[1], q3s[1], iqrMeans[1]);
    var blue := ChannelStats(means[2], medians[2], mins[2], maxs[2], q1s[2], q3s[2], iqrMeans[2]);
    r := Some(SampleResult(Stats(red, green, blue), cropped));
  }

  // ---------------------------------------------------------------------------
  // Rectangle

  lemma ScaledFloorBounds(n: nat, p: real)
    requires 0.0 < p <= 1.0
    ensures Trunc(n as real * p) == (n as real * p).Floor
    ensures 0 <= Trunc(n as real * p) <= n
  {
    var x := n as real;
    assert 0.0 <= x * p;
    assert x - x * p == x * (1.0 - p);
    assert 0.0 <= x * (1.0 - p);
  }

  /**
   * For 0 < p <= 1 the box lies inside the image, is floor(W p) by floor(H p),
   * and the clamps of lines 106-109 change no coordinate.
   */
  lemma BoxInsideImage(width: nat, height: nat, p: real)
    requires 0.0 < p <= 1.0
    ensures var b := MiddleRectangle(width, height, p);
            var w := (width as real * p).Floor;
            var h := (height as real * p).Floor;
            && 0 <= b.left <= b.right <= width && 0 <= b.top <= b.bottom <= height
            && b.right - b.left == w && b.bottom - b.top == h
            && b.left == (width - w) / 2 && b.top == (height - h) / 2
  {
    ScaledFloorBounds(width, p);
    ScaledFloorBounds(height, p);
  }

  /** The box is centred to within one pixel, the spare pixel going right and bottom. */
  lemma BoxCentred(width: nat, height: nat, p: real)
    requires 0.0 < p <= 1.0
    ensures var b := MiddleRectangle(width, height, p);
            && b.left <= width - b.right <= b.left + 1
            && b.top <= height - b.bottom <= b.top + 1
  {
    BoxInsideImage(width, height, p);
  }

  /**
   * What the evident intent of lines 101-103 gives: the 1-pixel minimum is
   * applied before the box is derived.
   */
  function CorrectedRectangle(width: nat, height: nat, percentage: real): Box
  {
    var rectWidth := MaxInt(1, Trunc(width as real * percentage));
    var rectHeight := MaxInt(1, Trunc(height as real * percentage));
    var left := (width - rectWidth) / 2;
    var top := (height - rectHeight) / 2;
    Box(MaxInt(0, left), MaxInt(0, top), MinInt(width, left + rectWidth), MinInt(height, top + rectHeight))
  }

  /** The corrected order gives at least one pixel for any non-empty image ... */
  lemma CorrectedRectangleNonEmpty(width: nat, height: nat, p: real)
    requires 1 <= width && 1 <= height && 0.0 < p <= 1.0
    ensures var b := CorrectedRectangle(width, height, p);
            && 0 <= b.left < b.right <= width && 0 <= b.top < b.bottom <= height
  {
    ScaledFloorBounds(width, p);
    ScaledFloorBounds(height, p);
  }

  /** ... and differs from the code as written exactly where floor(W p) or floor(H p) is 0. */
  lemma CorrectedAgreesUnlessDegenerate(width: nat, height: nat, p: real)
    requires 1 <= width && 1 <= height && 0.0 < p <= 1.0
    ensures CorrectedRectangle(width, height, p) == MiddleRectangle(width, height, p)
            <==> 1 <= (width as real * p).Floor && 1 <= (height as real * p).Floor
  {
    ScaledFloorBounds(width, p);
    ScaledFloorBounds(height, p);
    BoxInsideImage(width, height, p);
    CorrectedRectangleNonEmpty(width, height, p);
  }

  // ---------------------------------------------------------------------------
  // Crop and pixel data

  lemma {:induction false} FlattenLength(rows: seq<seq<Pixel>>, w: nat)
    requires forall y :: 0 <= y < |rows| ==> |rows[y]| == w
    ensures |Flatten(rows)| == |rows| * w
  {
    if |rows| > 0 {
      FlattenLength(rows[1..], w);
      assert |rows| * w == w + (|rows| - 1) * w;
    }
  }

  /** `getdata()` is row-major: pixel (y, x) of a grid of width `w` is item y·w + x. */
  lemma {:induction false} FlattenRowMajor(rows: seq<seq<Pixel>>, w: nat, y: nat, x: nat)
    requires forall j :: 0 <= j < |rows| ==> |rows[j]| == w
    requires y < |rows| && x < w
    ensures y * w + x < |Flatten(rows)| && Flatten(rows)[y * w + x] == rows[y][x]
  {
    var tail := rows[1..];
    assert Flatten(rows) == rows[0] + Flatten(tail);
    if y > 0 {
      assert forall j :: 0 <= j < |tail| ==> |tail[j]| == w;
      FlattenRowMajor(tail, w, y - 1, x);
      RowOffset(y, w);
      assert tail[y - 1] == rows[y];
    }
  }

  lemma RowOffset(y: nat, w: nat)
    requires y > 0
    ensures y * w == (y - 1) * w + w
  {
  }

  lemma {:induction false} FlattenUniform(rows: seq<seq<Pixel>>, p: Pixel)
    requires forall y, x :: 0 <= y < |rows| && 0 <= x < |rows[y]| ==> rows[y][x] == p
    ensures forall i :: 0 <= i < |Flatten(rows)| ==> Flatten(rows)[i] == p
  {
    if |rows| > 0 {
      FlattenUniform(rows[1..], p);
    }
  }

  /**
   * For 0 < p <= 1 sampling succeeds exactly when floor(W p) and floor(H p) are
   * both at least 1; the crop is then floor(W p) by floor(H p) and the statistics
   * are those of its pixels in row-major order.
   */
  lemma SampleSucceedsIffNonEmpty(img: Image, p: real)
    requires 0.0 < p <= 1.0
    ensures var w := (img.width as real * p).Floor;
            var h := (img.height as real * p).Floor;
            && (Sample(img, p).Some? <==> 1 <= w && 1 <= h)
            && (Sample(img, p).Some? ==>
                  var res := Sample(img, p).value;
                  && res.cropped.width == w && res.cropped.height == h
                  && res.cropped == Crop(img, MiddleRectangle(img.width, img.height, p))
                  && res.stats == StatsOfPixels(Flatten(res.cropped.rows)))
  {
    BoxInsideImage(img.width, img.height, p);
    var box := MiddleRectangle(img.width, img.height, p);
    var cropped := Crop(img, box);
    FlattenLength(cropped.rows, cropped.width);
    var n := cropped.height * cropped.width;
    assert n == 0 <==> cropped.height == 0 || cropped.width == 0;
  }

  /**
   * The 1-pixel minimum never reaches the box: if floor(W p) or floor(H p) is 0
   * the crop is empty and the sampler returns the failure value.
   */
  lemma DegenerateSampleFails(img: Image, p: real)
    requires 0.0 < p <= 1.0
    requires (img.width as real * p).Floor == 0 || (img.height as real * p).Floor == 0
    ensures Sample(img, p) == None
  {
    SampleSucceedsIffNonEmpty(img, p);
  }

  /** A 3 by 3 image at the default 0.15 is skipped: floor(3 * 0.15) = 0. */
  lemma ThreeByThreeSkipped(img: Image)
    requires img.width == 3 && img.height == 3
    ensures MiddleRectangle(3, 3, 0.15) == Box(1, 1, 1, 1)
    ensures Sample(img, 0.15) == None
  {
    assert (3 as real * 0.15).Floor == 0;
    DegenerateSampleFails(img, 0.15);
  }

  /** A 100 by 100 image at 0.15 is sampled over the 15 by 15 centre square. */
  lemma HundredSquareBox()
    ensures MiddleRectangle(100, 100, 0.15) == Box(42, 42, 57, 57)
  {
    assert (100 as real * 0.15).Floor == 15;
  }

  // ---------------------------------------------------------------------------
  // Statistics

  /** Every channel of a successful sample satisfies the ordering of the seven statistics. */
  lemma SampleStatsOrdered(img: Image, p: real, c: Channel)
    requires Sample(img, p).Some?
    ensures var st := Sample(img, p).value.stats.Of(c);
            && 0 <= st.min <= st.q1 <= st.median <= st.q3 <= st.max <= 255
            && st.min <= st.mean <= st.max
            && st.min <= st.iqrMean <= st.max
  {
    var box := MiddleRectangle(img.width, img.height, p);
    var px := Flatten(Crop(img, box).rows);
    ChannelStatsOrdered(ChannelValues(px, c));
  }

  lemma UniformChannel(px: seq<Pixel>, colour: Pixel, c: Channel)
    requires |px| > 0 && forall i :: 0 <= i < |px| ==> px[i] == colour
    ensures ChannelStatsOf(ChannelValues(px, c)) == Constant(colour.Get(c))
  {
    ConstantChannel(ChannelValues(px, c), colour.Get(c));
  }

  /** The record whose seven statistics are all v. */
  function Constant(v: int): ChannelStats
  {
    ChannelStats(v, v, v, v, v, v, v)
  }

  lemma CropUniform(img: Image, box: Box, colour: Pixel)
    requires 0 <= box.left <= box.right <= img.width
    requires 0 <= box.top <= box.bottom <= img.height
    requires forall y, x :: 0 <= y < img.height && 0 <= x < img.width ==> img.rows[y][x] == colour
    ensures var rows := Crop(img, box).rows;
            forall y, x :: 0 <= y < |rows| && 0 <= x < |rows[y]| ==> rows[y][x] == colour
  {
  }

  /** Pixels all of one colour: each channel's statistics are that channel's value. */
  lemma UniformStats(px: seq<Pixel>, colour: Pixel)
    requires |px| > 0 && forall i :: 0 <= i < |px| ==> px[i] == colour
    ensures StatsOfPixels(px) == Stats(Constant(colour.r), Constant(colour.g), Constant(colour.b))
  {
    UniformChannel(px, colour, Red);
    UniformChannel(px, colour, Green);
    UniformChannel(px, colour, Blue);
  }

  /** What a successful sample consists of. */
  lemma SampleOnSuccess(img: Image, p: real)
    requires Sample(img, p).Some?
    ensures var box := MiddleRectangle(img.width, img.height, p);
            && 0 <= box.left <= box.right <= img.width && 0 <= box.top <= box.bottom <= img.height
            && |Flatten(Crop(img, box).rows)| > 0
            && Sample(img, p).value
               == SampleResult(StatsOfPixels(Flatten(Crop(img, box).rows)), Crop(img, box))
  {
  }

  /** A crop of one colour: every statistic of each channel is that channel's value. */
  lemma SolidImageStats(img: Image, p: real, colour: Pixel)
    requires forall y, x :: 0 <= y < img.height && 0 <= x < img.width ==> img.rows[y][x] == colour
    requires Sample(img, p).Some?
    ensures Sample(img, p).value.stats
            == Stats(Constant(colour.r), Constant(colour.g), Constant(colour.b))
  {
    SampleOnSuccess(img, p);
    var box := MiddleRectangle(img.width, img.height, p);
    var cropped := Crop(img, box);
    CropUniform(img, box, colour);
    FlattenUniform(cropped.rows, colour);
    UniformStats(Flatten(cropped.rows), colour);
  }

  lemma SolidRedSquare(img: Image)
    requires img.width == 100 && img.height == 100
    requires forall y, x :: 0 <= y < img.height && 0 <= x < img.width ==> img.rows[y][x] == Pixel(255, 0, 0)
    ensures Sample(img, 0.15).Some?
    ensures Sample(img, 0.15).value.cropped.width == 15 && Sample(img, 0.15).value.cropped.height == 15
    ensures Sample(img, 0.15).value.stats == Stats(Constant(255), Constant(0), Constant(0))
  {
    HundredScaled();
    SampleSucceedsIffNonEmpty(img, 0.15);
    SolidImageStats(img, 0.15, Pixel(255, 0, 0));
  }

  lemma HundredScaled()
    ensures (100 as real * 0.15).Floor == 15
  {
  }

  // ---------------------------------------------------------------------------
  // Channel normalisation

  /** Grayscale data is triplicated: the three channel records are identical and are the band's statistics. */
  lemma GrayChannelsIdentical(v: seq<Byte>)
    requires |v| > 0
    ensures var st := StatsOfPixels(Normalise(Gray(v)));
            st.red == st.green == st.blue == ChannelStatsOf(v)
  {
    var px := Normalise(Gray(v));
    assert ChannelValues(px, Red) == v;
    assert ChannelValues(px, Green) == v;
    assert ChannelValues(px, Blue) == v;
  }

  /** Dropping the fourth band leaves the same RGB pixels whenever the first three bands agree. */
  lemma RgbaSamePixels(q: seq<PixelA>, q': seq<PixelA>)
    requires |q| == |q'|
    requires forall i :: 0 <= i < |q| ==> q[i].r == q'[i].r && q[i].g == q'[i].g && q[i].b == q'[i].b
    ensures Normalise(Rgba(q)) == Normalise(Rgba(q'))
  {
    var px, px' := Normalise(Rgba(q)), Normalise(Rgba(q'));
    assert forall i :: 0 <= i < |px| ==> px[i] == px'[i];
  }

  /** The first band of four-band data. */
  function RedBand(q: seq<PixelA>): seq<int>
  {
    seq(|q|, i requires 0 <= i < |q| => q[i].r as int)
  }

  /** The red samples of four-band data are its first band. */
  lemma RgbaReds(q: seq<PixelA>)
    ensures ChannelValues(Normalise(Rgba(q)), Red) == RedBand(q)
  {
    var values := ChannelValues(Normalise(Rgba(q)), Red);
    assert forall i :: 0 <= i < |q| ==> values[i] == q[i].r as int;
  }

  lemma RedStats(px: seq<Pixel>)
    requires |px| > 0
    ensures StatsOfPixels(px).red == ChannelStatsOf(ChannelValues(px, Red))
  {
  }

  /** Four-band data gives the statistics of its first three bands, whatever the fourth holds. */
  lemma RgbaIgnoresAlpha(q: seq<PixelA>, q': seq<PixelA>)
    requires |q| == |q'| > 0
    requires forall i :: 0 <= i < |q| ==> q[i].r == q'[i].r && q[i].g == q'[i].g && q[i].b == q'[i].b
    ensures StatsOfPixels(Normalise(Rgba(q))) == StatsOfPixels(Normalise(Rgba(q')))
    ensures StatsOfPixels(Normalise(Rgba(q))).red == ChannelStatsOf(RedBand(q))
  {
    RgbaSamePixels(q, q');
    RedStats(Normalise(Rgba(q)));
    RgbaReds(q);
  }
}
