/**
 * Percentages and ranking: the dictionary comprehension that turns counts into
 * percentages of `total_pixels`, and `sorted(..., key=percentage, reverse=True)[:10]`.
 *
 * Percentages are exact reals `count / total * 100`. Python's `sorted` is stable,
 * also with `reverse=True`: colours with equal percentages keep the order the
 * histogram iterates them in. The sort is modelled as a stable insertion sort and
 * `SortDescUnique` shows that stability and descending order leave no other choice.
 */
module Ranking {
  import opened Quantize
  import opened Histogram

  /** How many colours the ranking keeps. */
  const TopCount: nat := 10

  /** A quantized colour with its share of the image, in percent. */
  datatype Share = Share(color: Color, percent: real)

  function Min(a: int, b: int): int {
    if a <= b then a else b
  }

  /** `(count / total_pixels) * 100`, computed exactly; never negative. */
  function Percent(count: nat, total: nat): (p: real)
    requires total > 0
    ensures p >= 0.0
  {
    (count as real / total as real) * 100.0
  }

  /** The percentage of `count` pixels out of `total` is the number whose `total`-fold is `100 * count`. */
  lemma PercentScaled(count: nat, total: nat)
    requires total > 0
    ensures Percent(count, total) * total as real == 100.0 * count as real
  {
  }

  /** A non-empty bucket of a histogram over `total` pixels covers more than 0% and at most 100%. */
  lemma PercentBounds(count: nat, total: nat)
    requires 1 <= count <= total
    ensures 0.0 < Percent(count, total) <= 100.0
  {
    var p := Percent(count, total);
    PercentScaled(count, total);
    assert (100.0 - p) * total as real == 100.0 * (total - count) as real;
    NonNegativeFactor(100.0 - p, total as real);
  }

  /** A product with a positive factor has the sign of the other factor. */
  lemma NonNegativeFactor(x: real, t: real)
    requires t > 0.0 && x * t >= 0.0
    ensures x >= 0.0
  {
  }

  /** Over a fixed total, ordering by percentage is ordering by count. */
  lemma PercentMonotone(a: nat, b: nat, total: nat)
    requires total > 0
    ensures Percent(a, total) <= Percent(b, total) <==> a <= b
    ensures Percent(a, total) == Percent(b, total) <==> a == b
  {
    var pa, pb := Percent(a, total), Percent(b, total);
    PercentScaled(a, total);
    PercentScaled(b, total);
    assert (pb - pa) * total as real == 100.0 * (b - a) as real;
  }

  /** The percentage comprehension: one share per bucket, in histogram order. */
  function Shares(h: seq<Bucket>, total: nat): (s: seq<Share>)
    requires total > 0 || h == []
    ensures |s| == |h|
    ensures forall i :: 0 <= i < |s| ==>
              s[i].color == h[i].color && s[i].percent == Percent(h[i].count, total)
  {
    seq(|h|, i requires 0 <= i < |h| => Share(h[i].color, Percent(h[i].count, total)))
  }

  /** The sum of the percentages of a list of shares. */
  function SumPercent(s: seq<Share>): real {
    if s == [] then 0.0 else s[0].percent + SumPercent(s[1..])
  }

  /** `SumCounts` adds from the back; it can as well be split at the front. */
  lemma {:induction false} SumCountsFront(h: seq<Bucket>)
    requires h != []
    ensures SumCounts(h) == h[0].count + SumCounts(h[1..])
    decreases |h|
  {
    if |h| > 1 {
      var n := |h| - 1;
      assert h[1..][..n - 1] == h[..n][1..];
      SumCountsFront(h[..n]);
    }
  }

  /** The percentage of two counts together is the sum of their percentages. */
  lemma PercentAdd(a: nat, b: nat, total: nat)
    requires total > 0
    ensures Percent(a + b, total) == Percent(a, total) + Percent(b, total)
  {
  }

  /** The percentages of a histogram add up to the percentage of all its counts together. */
  lemma {:induction false} SumShares(h: seq<Bucket>, total: nat)
    requires total > 0
    ensures SumPercent(Shares(h, total)) == Percent(SumCounts(h), total)
    decreases |h|
  {
    if h != [] {
      var s := Shares(h, total);
      assert s[1..] == Shares(h[1..], total);
      SumShares(h[1..], total);
      SumCountsFront(h);
      PercentAdd(h[0].count, SumCounts(h[1..]), total);
    }
  }

  /** Percentages over the histogram's own total add up to exactly 100. */
  lemma SharesSumTo100(h: seq<Bucket>, total: nat)
    requires total > 0 && SumCounts(h) == total
    ensures SumPercent(Shares(h, total)) == 100.0
  {
    SumShares(h, total);
    PercentWhole(total);
  }

  /** All of the pixels are 100 percent. */
  lemma PercentWhole(total: nat)
    requires total > 0
    ensures Percent(total, total) == 100.0
  {
    assert total as real / total as real == 1.0;
  }

  /** The untruncated percentages of a non-empty image add up to exactly 100. */
  lemma PercentagesSumTo100(qs: seq<Color>)
    requires |qs| > 0
    ensures SumPercent(Shares(Count(qs), |qs|)) == 100.0
  {
    CountSum(qs);
    SharesSumTo100(Count(qs), |qs|);
  }

  /** Every share is at least every later one. */
  predicate NonIncreasing(s: seq<Share>) {
    forall i, j :: 0 <= i < j < |s| ==> s[j].percent <= s[i].percent
  }

  /** The shares with percentage exactly `p`, in their order in `s`. */
  function WithPercent(s: seq<Share>, p: real): seq<Share> {
    if s == [] then []
    else (if s[0].percent == p then [s[0]] else []) + WithPercent(s[1..], p)
  }

  /** The filter keeps shares of `s` with percentage `p`, and no others. */
  lemma {:induction false} WithPercentMembers(s: seq<Share>, p: real)
    ensures forall x :: x in WithPercent(s, p) ==> x in s && x.percent == p
  {
    if s != [] {
      WithPercentMembers(s[1..], p);
    }
  }

  /**
   * One step of the stable descending sort: `x`, which came before every share of
   * `s`, goes in front of the first share whose percentage is not above its own.
   */
  function Insert(x: Share, s: seq<Share>): (r: seq<Share>)
    ensures |r| == |s| + 1
    ensures multiset(r) == multiset(s) + multiset{x}
  {
    if s == [] || s[0].percent <= x.percent then [x] + s
    else
      assert s == [s[0]] + s[1..];
      [s[0]] + Insert(x, s[1..])
  }

  /** Inserting into a sorted list gives a sorted list. */
  lemma {:induction false} InsertSorted(x: Share, s: seq<Share>)
    requires NonIncreasing(s)
    ensures NonIncreasing(Insert(x, s))
  {
    if s != [] && s[0].percent > x.percent {
      var r' := Insert(x, s[1..]);
      InsertSorted(x, s[1..]);
      forall k | 0 <= k < |r'| ensures r'[k].percent <= s[0].percent {
        assert r'[k] in multiset(r');
        if r'[k] != x {
          assert r'[k] in multiset(s[1..]);
          var m :| 0 <= m < |s[1..]| && s[1..][m] == r'[k];
          assert s[m + 1] == r'[k];
        }
      }
      assert Insert(x, s) == [s[0]] + r';
    }
  }

  /** `sorted(shares, key=percentage, reverse=True)`. */
  function SortDesc(s: seq<Share>): (r: seq<Share>)
    ensures |r| == |s|
    ensures multiset(r) == multiset(s)
    ensures NonIncreasing(r)
  {
    if s == [] then [] else
      assert s == [s[0]] + s[1..];
      InsertSorted(s[0], SortDesc(s[1..]));
      Insert(s[0], SortDesc(s[1..]))
  }

  lemma WithPercentCons(x: Share, s: seq<Share>, p: real)
    ensures WithPercent([x] + s, p) == (if x.percent == p then [x] else []) + WithPercent(s, p)
  {
    assert ([x] + s)[1..] == s;
  }

  /** Inserting into a sorted list keeps the shares of each percentage in their order. */
  lemma {:induction false} InsertStable(x: Share, s: seq<Share>, p: real)
    requires NonIncreasing(s)
    ensures WithPercent(Insert(x, s), p) == WithPercent([x] + s, p)
  {
    if s != [] && s[0].percent > x.percent {
      var y, s' := s[0], s[1..];
      assert s == [y] + s';
      assert NonIncreasing(s');
      var hx := if x.percent == p then [x] else [];
      var hy := if y.percent == p then [y] else [];
      assert hy + hx == hx + hy;
      calc {
        WithPercent(Insert(x, s), p);
        { assert Insert(x, s) == [y] + Insert(x, s'); }
        WithPercent([y] + Insert(x, s'), p);
        { WithPercentCons(y, Insert(x, s'), p); }
        hy + WithPercent(Insert(x, s'), p);
        { InsertStable(x, s', p); }
        hy + WithPercent([x] + s', p);
        { WithPercentCons(x, s', p); }
        hy + (hx + WithPercent(s', p));
        hx + (hy + WithPercent(s', p));
        { WithPercentCons(y, s', p); }
        hx + WithPercent(s, p);
        { WithPercentCons(x, s, p); }
        WithPercent([x] + s, p);
      }
    }
  }

  /** Stability of the sort: the shares of each percentage keep their input order. */
  lemma {:induction false} SortDescStable(s: seq<Share>, p: real)
    ensures WithPercent(SortDesc(s), p) == WithPercent(s, p)
    decreases |s|
  {
    if s != [] {
      SortDescStable(s[1..], p);
      InsertStable(s[0], SortDesc(s[1..]), p);
      WithPercentCons(s[0], SortDesc(s[1..]), p);
      WithPercentCons(s[0], s[1..], p);
      assert s == [s[0]] + s[1..];
    }
  }

  /**
   * A stable descending order is unique: any list that is sorted by descending
   * percentage and keeps the shares of each percentage in their input order is
   * `SortDesc(s)`. So the model agrees with any stable sort, Python's included.
   */
  lemma {:induction false} SortDescUnique(s: seq<Share>, t: seq<Share>)
    requires NonIncreasing(t)
    requires forall p :: WithPercent(t, p) == WithPercent(s, p)
    ensures t == SortDesc(s)
  {
    forall p ensures WithPercent(t, p) == WithPercent(SortDesc(s), p) {
      SortDescStable(s, p);
    }
    SortedFiltersDetermine(t, SortDesc(s));
  }

  /** The first share of a non-empty sorted list has the largest percentage. */
  lemma FirstIsLargest(u: seq<Share>, p: real)
    requires NonIncreasing(u) && WithPercent(u, p) != []
    ensures u != [] && p <= u[0].percent
  {
    var y := WithPercent(u, p)[0];
    assert y in WithPercent(u, p);
  }

  /** A sorted list is empty when none of its percentages has a share. */
  lemma EmptyFilters(t: seq<Share>)
    requires t != []
    ensures WithPercent(t, t[0].percent) != []
  {
  }

  /** Two sorted lists with the same shares at every percentage start with the same share. */
  lemma SameHead(t: seq<Share>, u: seq<Share>)
    requires NonIncreasing(t) && NonIncreasing(u) && t != [] && u != []
    requires forall p :: WithPercent(t, p) == WithPercent(u, p)
    ensures t[0] == u[0]
  {
    var p, q := t[0].percent, u[0].percent;
    EmptyFilters(t);
    EmptyFilters(u);
    FirstIsLargest(u, p);
    FirstIsLargest(t, q);
    assert WithPercent(t, p)[0] == t[0];
    assert WithPercent(u, p)[0] == u[0];
  }

  /** Two sorted lists with the same shares at every percentage are equal. */
  lemma {:induction false} SortedFiltersDetermine(t: seq<Share>, u: seq<Share>)
    requires NonIncreasing(t) && NonIncreasing(u)
    requires forall p :: WithPercent(t, p) == WithPercent(u, p)
    ensures t == u
    decreases |t| + |u|
  {
    if t == [] && u != [] {
      EmptyFilters(u);
    } else if t != [] && u == [] {
      EmptyFilters(t);
    } else if t != [] {
      SameHead(t, u);
      assert NonIncreasing(t[1..]) && NonIncreasing(u[1..]);
      forall r ensures WithPercent(t[1..], r) == WithPercent(u[1..], r) {
        assert t == [t[0]] + t[1..] && u == [u[0]] + u[1..];
        WithPercentCons(t[0], t[1..], r);
        WithPercentCons(u[0], u[1..], r);
        var hd := if t[0].percent == r then [t[0]] else [];
        assert WithPercent(t, r) == WithPercent(u, r);
        assert WithPercent(t[1..], r) == (hd + WithPercent(t[1..], r))[|hd|..];
        assert WithPercent(u[1..], r) == (hd + WithPercent(u[1..], r))[|hd|..];
      }
      SortedFiltersDetermine(t[1..], u[1..]);
      assert t == [t[0]] + t[1..] && u == [u[0]] + u[1..];
    }
  }

  /** `[:10]`: the first `TopCount` shares, or all of them when there are fewer. */
  function Top(s: seq<Share>): (r: seq<Share>)
    ensures |r| == Min(TopCount, |s|) && r == s[..|r|]
  {
    if |s| <= TopCount then s else s[..TopCount]
  }

  /** The kept shares are the first ones, so they stay sorted. */
  lemma TopSorted(s: seq<Share>)
    requires NonIncreasing(s)
    ensures NonIncreasing(Top(s))
  {
  }

  /** A share past the cut-off means ten were kept, none with a smaller percentage. */
  lemma TopCutOff(s: seq<Share>, k: nat)
    requires NonIncreasing(s) && |Top(s)| <= k < |s|
    ensures |Top(s)| == TopCount
    ensures forall i :: 0 <= i < |Top(s)| ==> s[k].percent <= Top(s)[i].percent
  {
  }

  /**
   * The ranked percentages of a histogram over `total` pixels: one share per
   * bucket up to ten, in non-increasing order of percentage.
   */
  function Rank(h: seq<Bucket>, total: nat): (r: seq<Share>)
    requires total > 0 || h == []
    ensures |r| == Min(TopCount, |h|)
    ensures NonIncreasing(r)
  {
    TopSorted(SortDesc(Shares(h, total)));
    Top(SortDesc(Shares(h, total)))
  }

  /** The colours of a list of shares, in order. */
  function Colors(s: seq<Share>): (cs: seq<Color>)
    ensures |cs| == |s| && forall i :: 0 <= i < |s| ==> cs[i] == s[i].color
  {
    if s == [] then [] else [s[0].color] + Colors(s[1..])
  }

  /** The shares of a histogram carry its colours, in its order. */
  lemma SharesColors(h: seq<Bucket>, total: nat)
    requires total > 0 || h == []
    ensures Colors(Shares(h, total)) == Keys(h)
  {
  }

  /** Filtering by a percentage keeps the colours in first-occurrence order. */
  lemma {:induction false} WithPercentInOrder(s: seq<Share>, qs: seq<Color>, p: real)
    requires InFirstOccurrenceOrder(Colors(s), qs)
    ensures InFirstOccurrenceOrder(Colors(WithPercent(s, p)), qs)
    decreases |s|
  {
    if s != [] {
      var cs := Colors(s);
      assert Colors(s[1..]) == cs[1..];
      OrderTail(cs, qs);
      WithPercentInOrder(s[1..], qs, p);
      WithPercentFront(s, p);
      if s[0].percent == p {
        var rest := WithPercent(s[1..], p);
        var cr := Colors(rest);
        forall b | 0 <= b < |cr| ensures FirstIndex(qs, cs[0]) < FirstIndex(qs, cr[b]) {
          var m := WithPercentOrigin(s[1..], p, b);
          assert cs[m + 1] == cr[b];
        }
        assert Colors([s[0]] + rest) == [cs[0]] + cr;
        OrderCons(cs[0], cr, qs);
      }
    }
  }

  /** Each share of `WithPercent(s, p)` stands at some position `m` of `s`. */
  lemma {:induction false} WithPercentOrigin(s: seq<Share>, p: real, b: nat) returns (m: nat)
    requires b < |WithPercent(s, p)|
    ensures m < |s| && s[m] == WithPercent(s, p)[b]
    decreases |s|
  {
    WithPercentFront(s, p);
    if s[0].percent == p && b == 0 {
      m := 0;
    } else {
      var m' := WithPercentOrigin(s[1..], p, if s[0].percent == p then b - 1 else b);
      m := m' + 1;
    }
  }

  /** `WithPercent` unfolded once at the front. */
  lemma WithPercentFront(s: seq<Share>, p: real)
    requires s != []
    ensures s[0].percent == p ==> WithPercent(s, p) == [s[0]] + WithPercent(s[1..], p)
    ensures s[0].percent != p ==> WithPercent(s, p) == WithPercent(s[1..], p)
  {
  }

  /** A share of percentage `p` has a position `b` in `WithPercent(s, p)`. */
  lemma {:induction false} WithPercentPosition(s: seq<Share>, p: real, j: nat) returns (b: nat)
    requires j < |s| && s[j].percent == p
    ensures b < |WithPercent(s, p)| && WithPercent(s, p)[b] == s[j]
    decreases |s|
  {
    WithPercentFront(s, p);
    if j == 0 {
      b := 0;
    } else {
      var b' := WithPercentPosition(s[1..], p, j - 1);
      b := if s[0].percent == p then b' + 1 else b';
    }
  }

  /** Two shares of percentage `p` keep their relative order in `WithPercent(s, p)`. */
  lemma {:induction false} WithPercentPositions(s: seq<Share>, p: real, i: nat, j: nat) returns (a: nat, b: nat)
    requires i < j < |s| && s[i].percent == p && s[j].percent == p
    ensures a < b < |WithPercent(s, p)| && WithPercent(s, p)[a] == s[i] && WithPercent(s, p)[b] == s[j]
    decreases |s|
  {
    var w, w' := WithPercent(s, p), WithPercent(s[1..], p);
    WithPercentFront(s, p);
    if i == 0 {
      var b' := WithPercentPosition(s[1..], p, j - 1);
      assert w == [s[0]] + w';
      a, b := 0, b' + 1;
    } else {
      var a', b' := WithPercentPositions(s[1..], p, i - 1, j - 1);
      if s[0].percent == p {
        assert w == [s[0]] + w';
        assert w[a' + 1] == w'[a'] && w[b' + 1] == w'[b'];
        a, b := a' + 1, b' + 1;
      } else {
        assert w == w';
        a, b := a', b';
      }
    }
  }

  /**
   * Ties keep histogram order: when two sorted shares have the same percentage,
   * the one whose colour came first in `qs` comes first.
   */
  lemma SortDescTies(s: seq<Share>, qs: seq<Color>, i: nat, j: nat)
    requires InFirstOccurrenceOrder(Colors(s), qs)
    requires i < j < |SortDesc(s)| && SortDesc(s)[i].percent == SortDesc(s)[j].percent
    ensures SortDesc(s)[i].color in qs && SortDesc(s)[j].color in qs
    ensures FirstIndex(qs, SortDesc(s)[i].color) < FirstIndex(qs, SortDesc(s)[j].color)
  {
    var t := SortDesc(s);
    var p := t[i].percent;
    var a, b := WithPercentPositions(t, p, i, j);
    SortDescStable(s, p);
    WithPercentInOrder(s, qs, p);
    var cw := Colors(WithPercent(s, p));
    assert cw[a] == t[i].color && cw[b] == t[j].color;
  }

  /** Sorting does not change the sum of the percentages. */
  lemma {:induction false} InsertSum(x: Share, s: seq<Share>)
    ensures SumPercent(Insert(x, s)) == x.percent + SumPercent(s)
  {
    if s != [] && s[0].percent > x.percent {
      InsertSum(x, s[1..]);
      assert Insert(x, s)[1..] == Insert(x, s[1..]);
    } else {
      assert ([x] + s)[1..] == s;
    }
  }

  lemma {:induction false} SortDescSum(s: seq<Share>)
    ensures SumPercent(SortDesc(s)) == SumPercent(s)
  {
    if s != [] {
      SortDescSum(s[1..]);
      InsertSum(s[0], SortDesc(s[1..]));
    }
  }

  /** A prefix of shares with non-negative percentages sums to no more than the whole. */
  lemma {:induction false} PrefixSum(s: seq<Share>, k: nat)
    requires k <= |s| && forall i :: 0 <= i < |s| ==> s[i].percent >= 0.0
    ensures SumPercent(s[..k]) <= SumPercent(s)
  {
    if k > 0 {
      assert s[..k][1..] == s[1..][..k - 1];
      PrefixSum(s[1..], k - 1);
    } else if s != [] {
      assert SumPercent(s[1..]) >= 0.0 by { PrefixSum(s[1..], 0); }
    }
  }

  /** Every share of a sorted histogram comes from one of its buckets. */
  lemma SortedShareOrigin(h: seq<Bucket>, total: nat, k: nat)
    requires total > 0 && k < |SortDesc(Shares(h, total))|
    ensures exists m :: 0 <= m < |h| && SortDesc(Shares(h, total))[k] == Shares(h, total)[m]
  {
    var sorted := SortDesc(Shares(h, total));
    assert sorted[k] in multiset(Shares(h, total));
  }

  /** A kept share is a colour of the image with its exact percentage. */
  lemma RankEntry(qs: seq<Color>, i: nat)
    requires i < |Rank(Count(qs), |qs|)|
    ensures Rank(Count(qs), |qs|)[i].color in qs
    ensures Rank(Count(qs), |qs|)[i].percent == Percent(multiset(qs)[Rank(Count(qs), |qs|)[i].color], |qs|)
    ensures 0.0 < Rank(Count(qs), |qs|)[i].percent <= 100.0
  {
    var h := Count(qs);
    SortedShareOrigin(h, |qs|, i);
    var m :| 0 <= m < |h| && SortDesc(Shares(h, |qs|))[i] == Shares(h, |qs|)[m];
    CountBucket(qs, m);
    PercentBounds(h[m].count, |qs|);
  }

  /** A bucket whose colour is not kept has at most the percentage of every kept one. */
  lemma SharesCutOff(h: seq<Bucket>, total: nat, m: nat)
    requires total > 0 && m < |h|
    requires forall i :: 0 <= i < |Rank(h, total)| ==> Rank(h, total)[i].color != h[m].color
    ensures |Rank(h, total)| == TopCount
    ensures forall i :: 0 <= i < |Rank(h, total)| ==> Percent(h[m].count, total) <= Rank(h, total)[i].percent
  {
    var sh := Shares(h, total);
    var sorted := SortDesc(sh);
    var k := SortedPosition(sh, m);
    assert sorted[k].color == h[m].color && sorted[k].percent == Percent(h[m].count, total);
    assert Rank(h, total) == Top(sorted);
    NotKept(Top(sorted), sorted, k, h[m].color);
    TopCutOff(sorted, k);
  }

  /** Where the sort puts the share at position `m`. */
  lemma SortedPosition(s: seq<Share>, m: nat) returns (k: nat)
    requires m < |s|
    ensures k < |SortDesc(s)| && SortDesc(s)[k] == s[m]
  {
    assert s[m] in multiset(SortDesc(s));
    k :| 0 <= k < |SortDesc(s)| && SortDesc(s)[k] == s[m];
  }

  /** A share whose colour the prefix `r` of `s` does not hold lies past the prefix. */
  lemma NotKept(r: seq<Share>, s: seq<Share>, k: nat, c: Color)
    requires |r| <= |s| && r == s[..|r|] && k < |s| && s[k].color == c
    requires forall i :: 0 <= i < |r| ==> r[i].color != c
    ensures k >= |r|
  {
  }

  /** The kept percentages add up to no more than all of them. */
  lemma RankSumAtMostShares(h: seq<Bucket>, total: nat)
    requires total > 0
    ensures SumPercent(Rank(h, total)) <= SumPercent(Shares(h, total))
  {
    var sh := Shares(h, total);
    var sorted := SortDesc(sh);
    SortDescSum(sh);
    forall i | 0 <= i < |sorted| ensures sorted[i].percent >= 0.0 {
      SortedShareOrigin(h, total, i);
    }
    PrefixSum(sorted, |Top(sorted)|);
  }

  /** The ranking keeps `min(10, distinct colours)` shares. */
  lemma RankLength(qs: seq<Color>)
    ensures |Rank(Count(qs), |qs|)| == Min(TopCount, |Distinct(qs)|)
  {
    CountLength(qs);
  }

  /**
   * The cut-off of the top 10: a colour of the image that the ranking does not
   * keep was cut off because ten colours were kept, each with at least its share.
   */
  lemma RankCutOff(qs: seq<Color>, c: Color)
    requires c in qs
    requires forall i :: 0 <= i < |Rank(Count(qs), |qs|)| ==> Rank(Count(qs), |qs|)[i].color != c
    ensures |Rank(Count(qs), |qs|)| == TopCount
    ensures forall i :: 0 <= i < |Rank(Count(qs), |qs|)| ==>
              Percent(multiset(qs)[c], |qs|) <= Rank(Count(qs), |qs|)[i].percent
  {
    var h := Count(qs);
    CountKeys(qs, c);
    var m :| 0 <= m < |h| && Keys(h)[m] == c;
    CountBucket(qs, m);
    SharesCutOff(h, |qs|, m);
  }

  /** The shares of the histogram are in first-occurrence order of their colours. */
  lemma SharesInOrder(qs: seq<Color>)
    ensures InFirstOccurrenceOrder(Colors(Shares(Count(qs), |qs|)), qs)
  {
    CountOrder(qs);
    SharesColors(Count(qs), |qs|);
  }

  /**
   * Ties in the ranking keep `Counter` order: of two kept colours with equal
   * percentages, the one that occurs first in the image comes first.
   */
  lemma RankTies(qs: seq<Color>, i: nat, j: nat)
    requires i < j < |Rank(Count(qs), |qs|)|
    requires Rank(Count(qs), |qs|)[i].percent == Rank(Count(qs), |qs|)[j].percent
    ensures Rank(Count(qs), |qs|)[i].color in qs && Rank(Count(qs), |qs|)[j].color in qs
    ensures FirstIndex(qs, Rank(Count(qs), |qs|)[i].color) < FirstIndex(qs, Rank(Count(qs), |qs|)[j].color)
  {
    var sh := Shares(Count(qs), |qs|);
    SharesInOrder(qs);
    SortDescTies(sh, qs, i, j);
  }

  /** No colour is ranked twice. */
  lemma RankDistinct(qs: seq<Color>, i: nat, j: nat)
    requires i < j < |Rank(Count(qs), |qs|)|
    ensures Rank(Count(qs), |qs|)[i].color != Rank(Count(qs), |qs|)[j].color
  {
    var r := Rank(Count(qs), |qs|);
    RankEntry(qs, i);
    RankEntry(qs, j);
    if r[i].color == r[j].color {
      RankTies(qs, i, j);
    }
  }

  /** The percentages of the kept colours add up to at most 100. */
  lemma RankSumAtMost100(qs: seq<Color>)
    requires |qs| > 0
    ensures SumPercent(Rank(Count(qs), |qs|)) <= 100.0
  {
    PercentagesSumTo100(qs);
    RankSumAtMostShares(Count(qs), |qs|);
  }
}
