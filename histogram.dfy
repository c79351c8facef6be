/**
 * The colour histogram: `Counter(quantized_pixels)` and `total_pixels`.
 *
 * A `Counter` is a dictionary, and a Python dictionary iterates its keys in the
 * order they were first inserted. The histogram is therefore a sequence of
 * (colour, count) buckets in first-occurrence order; counting one more colour
 * either raises the count of its bucket in place or appends a new bucket.
 */
module Histogram {
  import opened Wrappers
  import opened Quantize

  /** One histogram entry: a quantized colour and the number of pixels in it. */
  datatype Bucket = Bucket(color: Color, count: nat)

  /** The colours of the histogram, in iteration order. */
  function Keys(h: seq<Bucket>): (ks: seq<Color>)
    ensures |ks| == |h| && forall i :: 0 <= i < |h| ==> ks[i] == h[i].color
  {
    seq(|h|, i requires 0 <= i < |h| => h[i].color)
  }

  /** No colour occurs in two buckets. */
  predicate UniqueKeys(h: seq<Bucket>) {
    forall i, j :: 0 <= i < j < |h| ==> h[i].color != h[j].color
  }

  /** The sum of all counts. */
  function SumCounts(h: seq<Bucket>): nat {
    if h == [] then 0 else SumCounts(h[..|h| - 1]) + h[|h| - 1].count
  }

  /** The position of the bucket of `c`, if there is one. */
  function Find(h: seq<Bucket>, c: Color): (r: Option<nat>)
    ensures r.None? <==> c !in Keys(h)
    ensures r.Some? ==> r.value < |h| && h[r.value].color == c
  {
    if h == [] then None
    else if h[|h| - 1].color == c then Some(|h| - 1)
    else Find(h[..|h| - 1], c)
  }

  /** Position of the first occurrence of `c` in `qs`. */
  function FirstIndex(qs: seq<Color>, c: Color): (i: nat)
    requires c in qs
    ensures i < |qs| && qs[i] == c
    ensures forall j :: 0 <= j < i ==> qs[j] != c
  {
    if qs[0] == c then 0 else 1 + FirstIndex(qs[1..], c)
  }

  /**
   * Counting one more pixel of colour `c`: the existing bucket of `c` is
   * incremented where it stands, otherwise a bucket with count 1 is appended.
   */
  function Add(h: seq<Bucket>, c: Color): (h': seq<Bucket>)
    requires UniqueKeys(h)
    ensures UniqueKeys(h')
    ensures Keys(h') == if c in Keys(h) then Keys(h) else Keys(h) + [c]
    ensures forall i :: 0 <= i < |h'| ==>
              h'[i].count == (if i < |h| then h[i].count else 0) + (if h'[i].color == c then 1 else 0)
    ensures SumCounts(h') == SumCounts(h) + 1
  {
    match Find(h, c)
    case None =>
      assert (h + [Bucket(c, 1)])[..|h|] == h;
      h + [Bucket(c, 1)]
    case Some(i) =>
      SumCountsUpdate(h, i, Bucket(c, h[i].count + 1));
      h[i := Bucket(c, h[i].count + 1)]
  }

  /** A colour without a bucket gets a new bucket with count 1 at the end. */
  lemma AddNew(h: seq<Bucket>, c: Color)
    requires UniqueKeys(h) && c !in Keys(h)
    ensures Add(h, c) == h + [Bucket(c, 1)]
  {
  }

  /** A colour with a bucket has that bucket's count raised by one, where it stands. */
  lemma AddExisting(h: seq<Bucket>, i: nat)
    requires UniqueKeys(h) && i < |h|
    ensures Add(h, h[i].color) == h[i := Bucket(h[i].color, h[i].count + 1)]
  {
    var k := Find(h, h[i].color).value;
    assert k == i;
  }

  /** Replacing one bucket changes the total by the difference of the counts. */
  lemma {:induction false} SumCountsUpdate(h: seq<Bucket>, i: nat, b: Bucket)
    requires i < |h|
    ensures SumCounts(h[i := b]) + h[i].count == SumCounts(h) + b.count
    decreases |h|
  {
    var n := |h| - 1;
    if i < n {
      assert h[i := b][..n] == h[..n][i := b];
      SumCountsUpdate(h[..n], i, b);
    } else {
      assert h[i := b][..n] == h[..n];
    }
  }

  /**
   * `h` is the tally of `qs`: its keys are unique and are exactly the colours of
   * `qs`, each bucket holds the number of times its colour occurs in `qs` (so every
   * count is positive), the counts add up to `len(qs)`, and there is one bucket per
   * distinct colour.
   */
  ghost predicate Tallies(h: seq<Bucket>, qs: seq<Color>) {
    && UniqueKeys(h)
    && (forall c :: c in Keys(h) <==> c in qs)
    && (forall i :: 0 <= i < |h| ==> h[i].count == multiset(qs)[h[i].color] && h[i].count >= 1)
    && SumCounts(h) == |qs|
    && |h| == |Distinct(qs)|
  }

  /** `Counter(qs)`: the colours of `qs` folded into a histogram, left to right. */
  function Count(qs: seq<Color>): (h: seq<Bucket>)
    ensures UniqueKeys(h)
  {
    if qs == [] then [] else Add(Count(qs[..|qs| - 1]), qs[|qs| - 1])
  }

  /** Counting one more colour at the end is one more `Add`. */
  lemma CountSnoc(qs: seq<Color>, x: Color)
    ensures Count(qs + [x]) == Add(Count(qs), x)
  {
    assert (qs + [x])[..|qs|] == qs;
  }

  /** The `Counter` of `qs` is the tally of `qs`. */
  lemma {:induction false} CountTallies(qs: seq<Color>)
    ensures Tallies(Count(qs), qs)
  {
    if qs != [] {
      var init, x := qs[..|qs| - 1], qs[|qs| - 1];
      assert qs == init + [x];
      CountTallies(init);
      AddTallies(Count(init), init, x);
    }
  }

  /** Counting one more colour keeps the histogram a tally of the longer sequence. */
  lemma AddTallies(h: seq<Bucket>, qs: seq<Color>, x: Color)
    requires Tallies(h, qs)
    ensures Tallies(Add(h, x), qs + [x])
  {
    TallyExtend(h, Add(h, x), qs, x);
  }

  /**
   * A histogram related to the tally of `qs` as `Add` promises (the bucket of `x`
   * raised by one, or a bucket for `x` appended) is the tally of `qs + [x]`.
   */
  lemma TallyExtend(h: seq<Bucket>, h': seq<Bucket>, qs: seq<Color>, x: Color)
    requires Tallies(h, qs) && UniqueKeys(h')
    requires Keys(h') == if x in Keys(h) then Keys(h) else Keys(h) + [x]
    requires forall i :: 0 <= i < |h'| ==>
               h'[i].count == (if i < |h| then h[i].count else 0) + (if h'[i].color == x then 1 else 0)
    requires SumCounts(h') == SumCounts(h) + 1
    ensures Tallies(h', qs + [x])
  {
    var qs' := qs + [x];
    assert multiset(qs') == multiset(qs) + multiset{x};
    assert Distinct(qs') == Distinct(qs) + {x};
    forall c ensures c in Keys(h') <==> c in qs' {
      assert c in qs' <==> c in qs || c == x;
    }
    forall i | 0 <= i < |h'|
      ensures h'[i].count == multiset(qs')[h'[i].color]
    {
      assert h'[i].color == Keys(h')[i];
      if i < |h| {
        assert Keys(h')[i] == Keys(h)[i];
      } else {
        assert h'[i].color == x && x !in qs;
      }
    }
  }

  /** The colours of the `Counter` are exactly the colours counted. */
  lemma CountKeys(qs: seq<Color>, c: Color)
    ensures c in Keys(Count(qs)) <==> c in qs
  {
    CountTallies(qs);
  }

  /** Each bucket holds the number of occurrences of its colour, between 1 and `len(qs)`. */
  lemma CountBucket(qs: seq<Color>, m: nat)
    requires m < |Count(qs)|
    ensures Count(qs)[m].color in qs
    ensures Count(qs)[m].count == multiset(qs)[Count(qs)[m].color]
    ensures 1 <= Count(qs)[m].count <= |qs|
  {
    CountTallies(qs);
    var h := Count(qs);
    assert Keys(h)[m] == h[m].color;
    assert multiset(qs)[h[m].color] <= |multiset(qs)|;
  }

  /** `total_pixels`: the counts add up to the number of pixels counted. */
  lemma CountSum(qs: seq<Color>)
    ensures SumCounts(Count(qs)) == |qs|
  {
    CountTallies(qs);
  }

  /** There is one bucket per distinct colour. */
  lemma CountLength(qs: seq<Color>)
    ensures |Count(qs)| == |Distinct(qs)|
  {
    CountTallies(qs);
  }

  /** The first occurrence of a colour is unaffected by what comes after it. */
  lemma {:induction false} FirstIndexAppend(qs: seq<Color>, x: Color, c: Color)
    requires c in qs
    ensures FirstIndex(qs + [x], c) == FirstIndex(qs, c)
  {
    var i, k := FirstIndex(qs + [x], c), FirstIndex(qs, c);
    assert (qs + [x])[k] == c;
  }

  /** The colours `cs` all occur in `qs`, in the order of their first occurrences there. */
  predicate InFirstOccurrenceOrder(cs: seq<Color>, qs: seq<Color>) {
    (forall i :: 0 <= i < |cs| ==> cs[i] in qs) &&
    forall i, j :: 0 <= i < j < |cs| ==> FirstIndex(qs, cs[i]) < FirstIndex(qs, cs[j])
  }

  /** Dropping the first colour keeps first-occurrence order. */
  lemma OrderTail(cs: seq<Color>, qs: seq<Color>)
    requires cs != [] && InFirstOccurrenceOrder(cs, qs)
    ensures InFirstOccurrenceOrder(cs[1..], qs)
  {
    forall i, j | 0 <= i < j < |cs| - 1
      ensures FirstIndex(qs, cs[1..][i]) < FirstIndex(qs, cs[1..][j])
    {
      assert cs[1..][i] == cs[i + 1] && cs[1..][j] == cs[j + 1];
    }
  }

  /** A colour that first occurs before all of `cs` may go in front of them. */
  lemma OrderCons(c: Color, cs: seq<Color>, qs: seq<Color>)
    requires c in qs && InFirstOccurrenceOrder(cs, qs)
    requires forall k :: 0 <= k < |cs| ==> FirstIndex(qs, c) < FirstIndex(qs, cs[k])
    ensures InFirstOccurrenceOrder([c] + cs, qs)
  {
    var cs' := [c] + cs;
    forall i, j | 0 <= i < j < |cs'|
      ensures FirstIndex(qs, cs'[i]) < FirstIndex(qs, cs'[j])
    {
      assert cs'[j] == cs[j - 1];
      if i > 0 {
        assert cs'[i] == cs[i - 1];
      }
    }
  }

  /**
   * The `Counter` iterates its colours in first-occurrence order: this order is
   * what the stable ranking falls back on when two colours tie.
   */
  lemma {:induction false} CountOrder(qs: seq<Color>)
    ensures InFirstOccurrenceOrder(Keys(Count(qs)), qs)
  {
    if qs != [] {
      var init, x := qs[..|qs| - 1], qs[|qs| - 1];
      assert qs == init + [x];
      CountTallies(init);
      CountOrder(init);
      AddOrder(Count(init), init, x);
    }
  }

  /** Counting one more colour keeps the buckets in first-occurrence order. */
  lemma AddOrder(h: seq<Bucket>, qs: seq<Color>, x: Color)
    requires Tallies(h, qs) && InFirstOccurrenceOrder(Keys(h), qs)
    ensures InFirstOccurrenceOrder(Keys(Add(h, x)), qs + [x])
  {
    OrderExtend(Keys(h), Keys(Add(h, x)), qs, x);
  }

  /**
   * Keeping the colours in place, or appending `x` when it has not occurred
   * before, keeps first-occurrence order for `qs + [x]`.
   */
  lemma OrderExtend(ks: seq<Color>, ks': seq<Color>, qs: seq<Color>, x: Color)
    requires InFirstOccurrenceOrder(ks, qs)
    requires ks' == ks || (ks' == ks + [x] && x !in qs)
    ensures InFirstOccurrenceOrder(ks', qs + [x])
  {
    var qs' := qs + [x];
    forall i | 0 <= i < |ks|
      ensures ks'[i] == ks[i] && ks'[i] in qs'
      ensures FirstIndex(qs', ks'[i]) == FirstIndex(qs, ks[i])
    {
      if ks' != ks {
        assert ks'[i] == (ks + [x])[i];
      }
      FirstIndexAppend(qs, x, ks[i]);
    }
    if ks' != ks {
      assert ks'[|ks|] == x;
      assert FirstIndex(qs', x) == |qs|;
    }
    forall i, j | 0 <= i < j < |ks'|
      ensures FirstIndex(qs', ks'[i]) < FirstIndex(qs', ks'[j])
    {
      if j == |ks| {
        assert FirstIndex(qs, ks[i]) < |qs|;
      }
    }
  }
}
