/**
 * Colour quantization: the nested `quantize_color` of `calculate_color_percentages`.
 * Every channel is floored to a multiple of the quantization step, which collapses
 * near-identical colours into one bucket.
 *
 * Python's `//` floors; Dafny's `/` is Euclidean. For a positive divisor the two agree
 * on every integer, so `(v / step) * step` is the source's expression unchanged.
 */
module Quantize {

  /** A colour as an (R, G, B) triple. */
  datatype Color = Color(r: int, g: int, b: int)

  /** The step `calculate_color_percentages` uses when its caller gives none. */
  const DefaultStep: int := 32

  /** A channel value of a decoded 8-bit RGB image. */
  predicate IsChannel(v: int) {
    0 <= v < 256
  }

  /** A pixel of a decoded 8-bit RGB image. */
  predicate IsPixel(c: Color) {
    IsChannel(c.r) && IsChannel(c.g) && IsChannel(c.b)
  }

  /** `v` is a multiple of `step`. */
  predicate IsMultiple(v: int, step: int)
    requires step > 0
  {
    v % step == 0
  }

  /** Each channel of `c` is a multiple of `step`. */
  predicate IsQuantized(c: Color, step: int)
    requires step > 0
  {
    IsMultiple(c.r, step) && IsMultiple(c.g, step) && IsMultiple(c.b, step)
  }

  /** `(channel // step) * step`: the bucket of one channel. */
  function QuantizeChannel(v: int, step: int): (q: int)
    requires step > 0
    ensures IsMultiple(q, step)
    ensures q <= v < q + step
    ensures v >= 0 ==> q >= 0
  {
    MultipleOfStep(v / step, step);
    (v / step) * step
  }

  /** `quantize_color`: every channel of the colour floored to its bucket. */
  function QuantizeColor(c: Color, step: int): (q: Color)
    requires step > 0
    ensures IsQuantized(q, step)
    ensures q.r <= c.r < q.r + step && q.g <= c.g < q.g + step && q.b <= c.b < q.b + step
    ensures IsPixel(c) ==> IsPixel(q)
  {
    Color(QuantizeChannel(c.r, step), QuantizeChannel(c.g, step), QuantizeChannel(c.b, step))
  }

  /** The list comprehension that quantizes every pixel, in pixel order. */
  function QuantizeAll(pixels: seq<Color>, step: int): (qs: seq<Color>)
    requires step > 0
    ensures |qs| == |pixels|
    ensures forall i :: 0 <= i < |qs| ==> qs[i] == QuantizeColor(pixels[i], step)
  {
    seq(|pixels|, i requires 0 <= i < |pixels| => QuantizeColor(pixels[i], step))
  }

  /** A non-zero multiple of `s` is at least `s` away from zero. */
  lemma MulBounds(a: int, s: int)
    requires s > 0
    ensures a >= 1 ==> a * s >= s
    ensures a <= -1 ==> a * s <= -s
  {
    if a >= 1 {
      assert a * s == (a - 1) * s + s;
    } else if a <= -1 {
      assert a * s == (a + 1) * s - s;
    }
  }

  /** The only multiple of `s` strictly between `-s` and `s` is zero. */
  lemma SmallMultipleIsZero(a: int, s: int)
    requires s > 0 && -s < a * s < s
    ensures a == 0
  {
    MulBounds(a, s);
  }

  /** A multiple of `step` is zero modulo `step`. */
  lemma MultipleOfStep(k: int, step: int)
    requires step > 0
    ensures (k * step) % step == 0
  {
    var m := k * step;
    var d, r := m / step, m % step;
    assert m == d * step + r;
    assert (k - d) * step == k * step - d * step;
    SmallMultipleIsZero(k - d, step);
  }

  /** A multiple of `step` is `step` times its quotient. */
  lemma MultipleIsProduct(m: int, step: int)
    requires step > 0 && IsMultiple(m, step)
    ensures m == (m / step) * step
  {
  }

  /**
   * The bucket of `v` is the one multiple of `step` in the window `(v - step, v]`:
   * `QuantizeChannel` is determined by the three facts its contract states.
   */
  lemma {:induction false} QuantizeChannelUnique(v: int, step: int, m: int)
    requires step > 0 && IsMultiple(m, step) && m <= v < m + step
    ensures m == QuantizeChannel(v, step)
  {
    var q := QuantizeChannel(v, step);
    MultipleIsProduct(m, step);
    MultipleIsProduct(q, step);
    var k, j := m / step, q / step;
    // q and m are both in (v - step, v], so they are less than one step apart.
    assert (k - j) * step == k * step - j * step;
    SmallMultipleIsZero(k - j, step);
  }

  /** The bucket is the largest multiple of `step` that is at most `v`. */
  lemma {:induction false} QuantizeChannelIsFloor(v: int, step: int, m: int)
    requires step > 0 && IsMultiple(m, step) && m <= v
    ensures m <= QuantizeChannel(v, step)
  {
    var q := QuantizeChannel(v, step);
    MultipleIsProduct(m, step);
    MultipleIsProduct(q, step);
    var k, j := m / step, q / step;
    assert (k - j) * step == k * step - j * step;
    MulBounds(k - j, step);
  }

  /** Quantizing an already quantized channel changes nothing. */
  lemma {:induction false} QuantizeChannelIdempotent(v: int, step: int)
    requires step > 0
    ensures QuantizeChannel(QuantizeChannel(v, step), step) == QuantizeChannel(v, step)
  {
    var q := QuantizeChannel(v, step);
    QuantizeChannelUnique(q, step, q);
  }

  /** Idempotence of `quantize_color`: a bucket is its own bucket. */
  lemma {:induction false} QuantizeColorIdempotent(c: Color, step: int)
    requires step > 0
    ensures QuantizeColor(QuantizeColor(c, step), step) == QuantizeColor(c, step)
  {
    QuantizeChannelIdempotent(c.r, step);
    QuantizeChannelIdempotent(c.g, step);
    QuantizeChannelIdempotent(c.b, step);
  }

  /** The colours fixed by quantization are exactly the quantized colours. */
  lemma {:induction false} QuantizeColorFixedPoints(c: Color, step: int)
    requires step > 0
    ensures QuantizeColor(c, step) == c <==> IsQuantized(c, step)
  {
    if IsQuantized(c, step) {
      QuantizeChannelUnique(c.r, step, c.r);
      QuantizeChannelUnique(c.g, step, c.g);
      QuantizeChannelUnique(c.b, step, c.b);
    }
  }

  /**
   * Coarsening a quantization: when `fine` divides `coarse`, quantizing with `fine`
   * first and then with `coarse` is the same as quantizing with `coarse` directly.
   */
  lemma {:induction false} QuantizeChannelCoarsen(v: int, fine: int, coarse: int)
    requires fine > 0 && coarse > 0 && IsMultiple(coarse, fine)
    ensures QuantizeChannel(QuantizeChannel(v, fine), coarse) == QuantizeChannel(v, coarse)
  {
    var q1 := QuantizeChannel(v, fine);
    var q2 := QuantizeChannel(v, coarse);
    // q2 is a multiple of coarse, hence of fine, and q2 <= v; so q2 <= q1.
    MultipleIsProduct(q2, coarse);
    MultipleIsProduct(coarse, fine);
    assert q2 == ((q2 / coarse) * (coarse / fine)) * fine;
    MultipleOfStep((q2 / coarse) * (coarse / fine), fine);
    QuantizeChannelIsFloor(v, fine, q2);
    QuantizeChannelUnique(q1, coarse, q2);
  }

  lemma {:induction false} QuantizeColorCoarsen(c: Color, fine: int, coarse: int)
    requires fine > 0 && coarse > 0 && IsMultiple(coarse, fine)
    ensures QuantizeColor(QuantizeColor(c, fine), coarse) == QuantizeColor(c, coarse)
  {
    QuantizeChannelCoarsen(c.r, fine, coarse);
    QuantizeChannelCoarsen(c.g, fine, coarse);
    QuantizeChannelCoarsen(c.b, fine, coarse);
  }

  /** The set of distinct colours in a sequence. */
  function Distinct(qs: seq<Color>): set<Color> {
    set c | c in qs
  }

  /** A sequence has no more distinct colours than elements. */
  lemma {:induction false} DistinctBound(qs: seq<Color>)
    ensures |Distinct(qs)| <= |qs|
  {
    if qs != [] {
      var init := qs[..|qs| - 1];
      DistinctBound(init);
      assert qs == init + [qs[|qs| - 1]];
      assert Distinct(qs) == Distinct(init) + {qs[|qs| - 1]};
    }
  }

  /** The set of distinct buckets the pixels fall into: never more than there are pixels. */
  function Buckets(pixels: seq<Color>, step: int): (s: set<Color>)
    requires step > 0
    ensures |s| <= |pixels|
  {
    DistinctBound(QuantizeAll(pixels, step));
    Distinct(QuantizeAll(pixels, step))
  }

  /** The image of a set under quantization is no larger than the set. */
  lemma {:induction false} ImageNoLarger(s: set<Color>, step: int)
    requires step > 0
    ensures |set c | c in s :: QuantizeColor(c, step)| <= |s|
    decreases |s|
  {
    if s != {} {
      var x :| x in s;
      var rest := s - {x};
      ImageNoLarger(rest, step);
      assert (set c | c in s :: QuantizeColor(c, step))
          == (set c | c in rest :: QuantizeColor(c, step)) + {QuantizeColor(x, step)};
    }
  }

  /**
   * A coarser step whose size is a multiple of the finer one never yields more
   * distinct buckets: every coarse bucket is the coarse bucket of a fine one.
   */
  lemma {:induction false} CoarserStepFewerBuckets(pixels: seq<Color>, fine: int, coarse: int)
    requires fine > 0 && coarse > 0 && IsMultiple(coarse, fine)
    ensures |Buckets(pixels, coarse)| <= |Buckets(pixels, fine)|
  {
    var f := Buckets(pixels, fine);
    var image := set c | c in f :: QuantizeColor(c, coarse);
    forall c | c in Buckets(pixels, coarse)
      ensures c in image
    {
      var qs := QuantizeAll(pixels, coarse);
      var i :| 0 <= i < |qs| && qs[i] == c;
      CoarseBucketFromFine(pixels, fine, coarse, i);
    }
    assert Buckets(pixels, coarse) <= image;
    SubsetNoLarger(Buckets(pixels, coarse), image);
    ImageNoLarger(f, coarse);
  }

  lemma {:induction false} SubsetNoLarger(a: set<Color>, b: set<Color>)
    requires a <= b
    ensures |a| <= |b|
    decreases |b|
  {
    if b != {} {
      var x :| x in b;
      SubsetNoLarger(a - {x}, b - {x});
    }
  }

  lemma CoarseBucketFromFine(pixels: seq<Color>, fine: int, coarse: int, i: int)
    requires fine > 0 && coarse > 0 && IsMultiple(coarse, fine) && 0 <= i < |pixels|
    ensures QuantizeAll(pixels, coarse)[i] in set c | c in Buckets(pixels, fine) :: QuantizeColor(c, coarse)
  {
    QuantizeColorCoarsen(pixels[i], fine, coarse);
    assert QuantizeAll(pixels, fine)[i] in Buckets(pixels, fine);
  }

  /**
   * Without the divisibility condition a coarser step can split a bucket:
   * red channels 40 and 50 share bucket 32 under step 32, but fall into
   * buckets 0 and 48 under step 48.
   */
  lemma CoarserStepCanSplit()
    ensures |Buckets([Color(40, 0, 0), Color(50, 0, 0)], 32)| == 1
    ensures |Buckets([Color(40, 0, 0), Color(50, 0, 0)], 48)| == 2
  {
    var px := [Color(40, 0, 0), Color(50, 0, 0)];
    assert QuantizeAll(px, 32) == [Color(32, 0, 0), Color(32, 0, 0)];
    assert Buckets(px, 32) == {Color(32, 0, 0)};
    assert QuantizeAll(px, 48) == [Color(0, 0, 0), Color(48, 0, 0)];
    assert Buckets(px, 48) == {Color(0, 0, 0), Color(48, 0, 0)};
  }

  /** The worked example: with step 32, pixel (200, 10, 5) lands in bucket (192, 0, 0). */
  lemma QuantizeExample()
    ensures QuantizeColor(Color(200, 10, 5), DefaultStep) == Color(192, 0, 0)
    ensures QuantizeColor(Color(255, 255, 255), DefaultStep) == Color(224, 224, 224)
  {
  }
}
