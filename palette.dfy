/**
 * The colour-histogram pipeline of `calculate_color_percentages`, from the
 * already decoded and resized pixels to the ranked `(hex, percentage)` list:
 * quantize every pixel, count the buckets, turn counts into percentages of
 * `total_pixels`, keep the ten largest (ties in first-occurrence order) and
 * write each bucket as `#rrggbb`.
 */
module Palette {
  import opened Wrappers
  import opened Quantize
  import opened Histogram
  import opened Ranking
  import opened HexColor

  /** One line of the result: a colour as `#rrggbb` and its percentage of the image. */
  datatype Entry = Entry(hex: string, percent: real)

  /** Pixels of a decoded 8-bit RGB image, flattened row by row. */
  predicate IsImage(pixels: seq<Color>) {
    forall i :: 0 <= i < |pixels| ==> IsPixel(pixels[i])
  }

  /** The number of pixels that fall into bucket `c`. */
  function PixelsIn(pixels: seq<Color>, step: int, c: Color): nat
    requires step > 0
  {
    multiset(QuantizeAll(pixels, step))[c]
  }

  /** The index of the first pixel that falls into bucket `c`. */
  function FirstPixel(pixels: seq<Color>, step: int, c: Color): nat
    requires step > 0 && c in QuantizeAll(pixels, step)
  {
    FirstIndex(QuantizeAll(pixels, step), c)
  }

  /** The ranked buckets before formatting. */
  function RankedShares(pixels: seq<Color>, step: int): seq<Share>
    requires step > 0
  {
    var qs := QuantizeAll(pixels, step);
    Rank(Count(qs), |qs|)
  }

  /** The buckets of a decoded image are pixels themselves. */
  lemma BucketIsPixel(pixels: seq<Color>, step: int, c: Color)
    requires step > 0 && IsImage(pixels) && c in QuantizeAll(pixels, step)
    ensures IsPixel(c)
  {
    var qs := QuantizeAll(pixels, step);
    var k :| 0 <= k < |qs| && qs[k] == c;
  }

  /** A ranked bucket of an image: a bucket of its pixels, with its exact percentage. */
  lemma RankedShareFacts(pixels: seq<Color>, step: int, i: nat)
    requires step > 0 && IsImage(pixels) && i < |RankedShares(pixels, step)|
    ensures |pixels| > 0
    ensures RankedShares(pixels, step)[i].color in QuantizeAll(pixels, step)
    ensures IsPixel(RankedShares(pixels, step)[i].color)
    ensures RankedShares(pixels, step)[i].percent ==
              Percent(PixelsIn(pixels, step, RankedShares(pixels, step)[i].color), |pixels|)
    ensures 0.0 < RankedShares(pixels, step)[i].percent <= 100.0
  {
    var qs := QuantizeAll(pixels, step);
    RankEntry(qs, i);
    BucketIsPixel(pixels, step, RankedShares(pixels, step)[i].color);
  }

  /** Every ranked bucket of a decoded image is itself an 8-bit colour. */
  lemma RankedArePixels(pixels: seq<Color>, step: int)
    requires step > 0 && IsImage(pixels)
    ensures forall i :: 0 <= i < |RankedShares(pixels, step)| ==> IsPixel(RankedShares(pixels, step)[i].color)
  {
    forall i | 0 <= i < |RankedShares(pixels, step)| ensures IsPixel(RankedShares(pixels, step)[i].color) {
      RankedShareFacts(pixels, step, i);
    }
  }

  /**
   * The hex list comprehension: each share becomes `(f"#{r:02x}{g:02x}{b:02x}", percentage)`.
   * Each entry's text reads back as the share's colour and keeps its percentage.
   */
  function FormatEntries(shares: seq<Share>): (r: seq<Entry>)
    requires forall i :: 0 <= i < |shares| ==> IsPixel(shares[i].color)
    ensures |r| == |shares|
    ensures forall i :: 0 <= i < |r| ==>
              ParseHex(r[i].hex) == Some(shares[i].color) && r[i].percent == shares[i].percent
  {
    if shares == [] then []
    else
      ParseFormat(shares[0].color);
      [Entry(FormatHex(shares[0].color), shares[0].percent)] + FormatEntries(shares[1..])
  }

  /**
   * `calculate_color_percentages` after decoding: as many entries as there are
   * buckets, up to ten, in non-increasing order of percentage.
   */
  function DominantColors(pixels: seq<Color>, step: int): (r: seq<Entry>)
    requires step > 0 && IsImage(pixels)
    ensures |r| == Min(TopCount, |Buckets(pixels, step)|)
    ensures forall i, j :: 0 <= i < j < |r| ==> r[j].percent <= r[i].percent
  {
    var qs := QuantizeAll(pixels, step);
    RankedArePixels(pixels, step);
    RankLength(qs);
    FormatEntries(RankedShares(pixels, step))
  }

  /**
   * Each entry names a bucket of the image as `#rrggbb` and gives the exact
   * percentage of the pixels in that bucket, more than 0 and at most 100.
   */
  lemma DominantColorsEntry(pixels: seq<Color>, step: int, i: nat)
    requires step > 0 && IsImage(pixels) && i < |DominantColors(pixels, step)|
    ensures |pixels| > 0
    ensures ParseHex(DominantColors(pixels, step)[i].hex).Some?
    ensures ParseHex(DominantColors(pixels, step)[i].hex).value in Buckets(pixels, step)
    ensures DominantColors(pixels, step)[i].percent ==
              Percent(PixelsIn(pixels, step, ParseHex(DominantColors(pixels, step)[i].hex).value), |pixels|)
    ensures 0.0 < DominantColors(pixels, step)[i].percent <= 100.0
  {
    RankedArePixels(pixels, step);
    RankedShareFacts(pixels, step, i);
  }

  /** The entries are the ranked shares, written as hex. */
  lemma DominantColorsFormats(pixels: seq<Color>, step: int)
    requires step > 0 && IsImage(pixels)
    ensures |DominantColors(pixels, step)| == |RankedShares(pixels, step)|
    ensures forall i :: 0 <= i < |DominantColors(pixels, step)| ==>
              ParseHex(DominantColors(pixels, step)[i].hex) == Some(RankedShares(pixels, step)[i].color) &&
              DominantColors(pixels, step)[i].percent == RankedShares(pixels, step)[i].percent
  {
    RankedArePixels(pixels, step);
  }

  /** No bucket is listed twice. */
  lemma DominantColorsDistinct(pixels: seq<Color>, step: int, i: nat, j: nat)
    requires step > 0 && IsImage(pixels) && i < j < |DominantColors(pixels, step)|
    ensures DominantColors(pixels, step)[i].hex != DominantColors(pixels, step)[j].hex
  {
    DominantColorsFormats(pixels, step);
    RankDistinct(QuantizeAll(pixels, step), i, j);
  }

  /**
   * The top-10 cut-off: a bucket of the image that is not listed was left out
   * because ten buckets were listed, each with at least its percentage.
   */
  lemma DominantColorsCutOff(pixels: seq<Color>, step: int, c: Color)
    requires step > 0 && IsImage(pixels) && c in Buckets(pixels, step)
    requires forall i :: 0 <= i < |DominantColors(pixels, step)| ==>
               ParseHex(DominantColors(pixels, step)[i].hex) != Some(c)
    ensures |pixels| > 0
    ensures |DominantColors(pixels, step)| == TopCount
    ensures forall i :: 0 <= i < |DominantColors(pixels, step)| ==>
              Percent(PixelsIn(pixels, step, c), |pixels|) <= DominantColors(pixels, step)[i].percent
  {
    DominantColorsFormats(pixels, step);
    RankCutOff(QuantizeAll(pixels, step), c);
  }

  /**
   * Ties keep `Counter` order: of two listed buckets with equal percentages,
   * the one that the earlier pixel falls into is listed first.
   */
  lemma DominantColorsTies(pixels: seq<Color>, step: int, i: nat, j: nat)
    requires step > 0 && IsImage(pixels) && i < j < |DominantColors(pixels, step)|
    requires DominantColors(pixels, step)[i].percent == DominantColors(pixels, step)[j].percent
    ensures ParseHex(DominantColors(pixels, step)[i].hex).Some?
    ensures ParseHex(DominantColors(pixels, step)[j].hex).Some?
    ensures ParseHex(DominantColors(pixels, step)[i].hex).value in QuantizeAll(pixels, step)
    ensures ParseHex(DominantColors(pixels, step)[j].hex).value in QuantizeAll(pixels, step)
    ensures FirstPixel(pixels, step, ParseHex(DominantColors(pixels, step)[i].hex).value)
          < FirstPixel(pixels, step, ParseHex(DominantColors(pixels, step)[j].hex).value)
  {
    DominantColorsFormats(pixels, step);
    RankTies(QuantizeAll(pixels, step), i, j);
  }

  /** The sum of the percentages of a result list. */
  function EntrySum(r: seq<Entry>): real {
    if r == [] then 0.0 else r[0].percent + EntrySum(r[1..])
  }

  lemma {:induction false} FormatEntriesSum(shares: seq<Share>)
    requires forall i :: 0 <= i < |shares| ==> IsPixel(shares[i].color)
    ensures EntrySum(FormatEntries(shares)) == SumPercent(shares)
  {
    if shares != [] {
      FormatEntriesSum(shares[1..]);
      assert FormatEntries(shares)[1..] == FormatEntries(shares[1..]);
    }
  }

  /** The listed percentages add up to at most 100. */
  lemma DominantColorsSumAtMost100(pixels: seq<Color>, step: int)
    requires step > 0 && IsImage(pixels) && |pixels| > 0
    ensures EntrySum(DominantColors(pixels, step)) <= 100.0
  {
    RankedArePixels(pixels, step);
    FormatEntriesSum(RankedShares(pixels, step));
    RankSumAtMost100(QuantizeAll(pixels, step));
  }

  /** `img.resize((100, 100))`: the number of pixels the pipeline sees for every upload. */
  const ResizedPixels: nat := 100 * 100

  /** With the resized image, each percentage is the bucket's pixel count divided by 100. */
  lemma ResizedPercent(count: nat)
    ensures Percent(count, ResizedPixels) == count as real / 100.0
  {
    assert (count as real / 10000.0) * 100.0 == count as real / 100.0;
  }

  /** Counting `n` copies of one colour gives one bucket holding `n`. */
  lemma {:induction false} CountConstant(q: Color, n: nat)
    requires n > 0
    ensures Count(seq(n, _ => q)) == [Bucket(q, n)]
  {
    var qs := seq(n, _ => q);
    if n > 1 {
      assert qs[..n - 1] == seq(n - 1, _ => q);
      CountConstant(q, n - 1);
    } else {
      assert qs[..0] == [];
    }
  }

  /** A single bucket is ranked alone, at 100%. */
  lemma RankSingle(q: Color, n: nat)
    requires n > 0
    ensures Rank([Bucket(q, n)], n) == [Share(q, 100.0)]
  {
    assert n as real / n as real == 1.0;
    assert Shares([Bucket(q, n)], n) == [Share(q, 100.0)];
    assert SortDesc([Share(q, 100.0)]) == [Share(q, 100.0)];
  }

  /** An image whose pixels are all the same colour has one bucket, at 100%. */
  lemma SingleColorImage(p: Color, n: nat, step: int)
    requires step > 0 && IsPixel(p) && n > 0
    ensures DominantColors(seq(n, _ => p), step) == [Entry(FormatHex(QuantizeColor(p, step)), 100.0)]
  {
    var pixels := seq(n, _ => p);
    var q := QuantizeColor(p, step);
    assert QuantizeAll(pixels, step) == seq(n, _ => q);
    CountConstant(q, n);
    RankSingle(q, n);
    assert RankedShares(pixels, step) == [Share(q, 100.0)];
  }

  /** The `Counter` of two pixels of one colour. */
  lemma CountPair(black: Color)
    ensures Count([black, black]) == [Bucket(black, 2)]
  {
    CountConstant(black, 2);
    assert seq(2, _ => black) == [black, black];
  }

  /** The `Counter` of two black buckets and a white one. */
  lemma CountPairThenOther(black: Color, white: Color)
    requires black != white
    ensures Count([black, black, white]) == [Bucket(black, 2), Bucket(white, 1)]
  {
    var h2 := [Bucket(black, 2)];
    CountPair(black);
    CountSnoc([black, black], white);
    assert [black, black] + [white] == [black, black, white];
    assert Keys(h2) == [black];
    AddNew(h2, white);
  }

  /** The `Counter` of two black and two white buckets. */
  lemma CountTwoColors(black: Color, white: Color)
    requires black != white
    ensures Count([black, black, white, white]) == [Bucket(black, 2), Bucket(white, 2)]
  {
    CountPairThenOther(black, white);
    CountSnoc([black, black, white], white);
    assert [black, black, white] + [white] == [black, black, white, white];
    AddExisting([Bucket(black, 2), Bucket(white, 1)], 1);
  }

  /** Two buckets at 50% each keep their `Counter` order. */
  lemma RankTwoColors(black: Color, white: Color)
    ensures Rank([Bucket(black, 2), Bucket(white, 2)], 4) == [Share(black, 50.0), Share(white, 50.0)]
  {
    assert Shares([Bucket(black, 2), Bucket(white, 2)], 4) == [Share(black, 50.0), Share(white, 50.0)];
    assert SortDesc([Share(white, 50.0)]) == [Share(white, 50.0)];
    assert SortDesc([Share(black, 50.0), Share(white, 50.0)]) == [Share(black, 50.0), Share(white, 50.0)];
  }

  /** The two 50% shares are written `#000000` and `#e0e0e0`. */
  lemma FormatTwoColors()
    ensures FormatEntries([Share(Color(0, 0, 0), 50.0), Share(Color(224, 224, 224), 50.0)])
         == [Entry("#000000", 50.0), Entry("#e0e0e0", 50.0)]
  {
    var shares := [Share(Color(0, 0, 0), 50.0), Share(Color(224, 224, 224), 50.0)];
    FormatExample();
    assert shares[1..][1..] == [];
  }

  /**
   * Two black and two white pixels with step 32: two buckets at 50% each,
   * black first because its pixels come first.
   */
  lemma TwoColorExample()
    ensures DominantColors([Color(0, 0, 0), Color(0, 0, 0), Color(255, 255, 255), Color(255, 255, 255)], DefaultStep)
         == [Entry("#000000", 50.0), Entry("#e0e0e0", 50.0)]
  {
    var pixels := [Color(0, 0, 0), Color(0, 0, 0), Color(255, 255, 255), Color(255, 255, 255)];
    var black, white := Color(0, 0, 0), Color(224, 224, 224);
    assert QuantizeAll(pixels, DefaultStep) == [black, black, white, white];
    CountTwoColors(black, white);
    RankTwoColors(black, white);
    assert RankedShares(pixels, DefaultStep) == [Share(black, 50.0), Share(white, 50.0)];
    FormatTwoColors();
  }
}
