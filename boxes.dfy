/** The colour box of a group (MedianCut.cpp:48-99, 114-127): its tight
    per-channel bounds, the widest channel, the midpoint split and the
    floor-mean colour. */
module Boxes {
  import opened Colors
  import opened Groups

  /** Per-channel minimum and maximum, held as two colours. */
  datatype Bounds = Bounds(lo: Color, hi: Color) {
    /** max - min of one channel (rRange, gRange, bRange). */
    function Range(ch: Channel): int {
      hi.Get(ch) - lo.Get(ch)
    }
  }

  /** The two halves a split produces. */
  datatype Halves = Halves(lower: Group, upper: Group)

  function MinColor(a: Color, c: Color): Color {
    Color(if c.r < a.r then c.r else a.r, if c.g < a.g then c.g else a.g, if c.b < a.b then c.b else a.b)
  }

  function MaxColor(a: Color, c: Color): Color {
    Color(if a.r < c.r then c.r else a.r, if a.g < c.g then c.g else a.g, if a.b < c.b then c.b else a.b)
  }

  /** The bounds the scan at MedianCut.cpp:48-57 computes: it starts from
      min = 255 and max = 0 in every channel and widens them member by member. */
  function BoundsOf(pixels: seq<Color>, g: Group): Bounds
    requires Within(|pixels|, g)
  {
    if |g| == 0 then Bounds(Color(255, 255, 255), Color(0, 0, 0))
    else
      var b := BoundsOf(pixels, g[..|g| - 1]);
      var c := pixels[g[|g| - 1]];
      Bounds(MinColor(b.lo, c), MaxColor(b.hi, c))
  }

  /** For a non-empty group the bounds are tight: every member lies inside
      them and some member attains each of them. */
  lemma {:induction false} BoundsOfTight(pixels: seq<Color>, g: Group, ch: Channel)
    requires ValidGroup(|pixels|, g)
    ensures forall j :: 0 <= j < |g| ==>
      BoundsOf(pixels, g).lo.Get(ch) <= pixels[g[j]].Get(ch) <= BoundsOf(pixels, g).hi.Get(ch)
    ensures exists j :: 0 <= j < |g| && pixels[g[j]].Get(ch) == BoundsOf(pixels, g).lo.Get(ch)
    ensures exists j :: 0 <= j < |g| && pixels[g[j]].Get(ch) == BoundsOf(pixels, g).hi.Get(ch)
  {
    var n := |g|;
    var b, c := BoundsOf(pixels, g), pixels[g[n - 1]];
    if n == 1 {
      assert g[..0] == [];
      var e := BoundsOf(pixels, g[..0]);
      assert e == Bounds(Color(255, 255, 255), Color(0, 0, 0));
      assert b == Bounds(MinColor(e.lo, c), MaxColor(e.hi, c));
      assert b.lo == c && b.hi == c;
      assert pixels[g[0]] == c;
    } else {
      var g' := g[..n - 1];
      assert ValidGroup(|pixels|, g');
      BoundsOfTight(pixels, g', ch);
      var b' := BoundsOf(pixels, g');
      assert forall j :: 0 <= j < n - 1 ==> g[j] == g'[j];
      var jl :| 0 <= jl < n - 1 && pixels[g'[jl]].Get(ch) == b'.lo.Get(ch);
      var jh :| 0 <= jh < n - 1 && pixels[g'[jh]].Get(ch) == b'.hi.Get(ch);
      if c.Get(ch) < b'.lo.Get(ch) {
        assert pixels[g[n - 1]].Get(ch) == b.lo.Get(ch);
      } else {
        assert pixels[g[jl]].Get(ch) == b.lo.Get(ch);
      }
      if b'.hi.Get(ch) < c.Get(ch) {
        assert pixels[g[n - 1]].Get(ch) == b.hi.Get(ch);
      } else {
        assert pixels[g[jh]].Get(ch) == b.hi.Get(ch);
      }
    }
  }

  /** The test at MedianCut.cpp:65: all three ranges are zero. */
  predicate Degenerate(bd: Bounds) {
    bd.Range(Red) == 0 && bd.Range(Green) == 0 && bd.Range(Blue) == 0
  }

  /** All members of g have the same colour. */
  ghost predicate Uniform(pixels: seq<Color>, g: Group)
    requires ValidGroup(|pixels|, g)
  {
    forall j :: 0 <= j < |g| ==> pixels[g[j]] == pixels[g[0]]
  }

  /** A group whose bounds are degenerate has a single colour, and conversely. */
  lemma DegenerateIffUniform(pixels: seq<Color>, g: Group)
    requires ValidGroup(|pixels|, g)
    ensures Degenerate(BoundsOf(pixels, g)) <==> Uniform(pixels, g)
  {
    var bd := BoundsOf(pixels, g);
    BoundsOfTight(pixels, g, Red);
    BoundsOfTight(pixels, g, Green);
    BoundsOfTight(pixels, g, Blue);
    if Degenerate(bd) {
      forall j | 0 <= j < |g| ensures pixels[g[j]] == pixels[g[0]] {
        SameChannels(pixels[g[j]], pixels[g[0]]);
      }
    }
    if Uniform(pixels, g) {
      forall ch: Channel ensures bd.Range(ch) == 0 {
        BoundsOfTight(pixels, g, ch);
        var jl :| 0 <= jl < |g| && pixels[g[jl]].Get(ch) == bd.lo.Get(ch);
        var jh :| 0 <= jh < |g| && pixels[g[jh]].Get(ch) == bd.hi.Get(ch);
        assert pixels[g[jl]] == pixels[g[jh]];
      }
    }
  }

  /** The split channel of MedianCut.cpp:74-85: a channel of maximal range;
      on a tie Red wins over Green and Green over Blue. */
  function WidestAxis(bd: Bounds): (ch: Channel)
    ensures forall c: Channel :: bd.Range(c) <= bd.Range(ch)
    ensures ch == Green ==> bd.Range(Red) < bd.Range(Green)
    ensures ch == Blue ==> bd.Range(Red) < bd.Range(Blue) && bd.Range(Green) < bd.Range(Blue)
  {
    if bd.Range(Red) >= bd.Range(Green) && bd.Range(Red) >= bd.Range(Blue) then Red
    else if bd.Range(Green) >= bd.Range(Red) && bd.Range(Green) >= bd.Range(Blue) then Green
    else Blue
  }

  /** The comparison at MedianCut.cpp:93, `component < (min + max) / 2.0f`,
      stated without fractions: twice the component is below min + max. */
  predicate BelowCenter(c: Color, ch: Channel, bd: Bounds) {
    2 * c.Get(ch) < bd.lo.Get(ch) + bd.hi.Get(ch)
  }

  /** The partition loop of MedianCut.cpp:88-99: every member goes to the
      lower half iff it lies below the center, to the upper half otherwise,
      keeping its order. */
  function Split(pixels: seq<Color>, g: Group, ch: Channel, bd: Bounds): (h: Halves)
    requires Within(|pixels|, g)
    ensures multiset(h.lower) + multiset(h.upper) == multiset(g)
    ensures forall i :: i in h.lower ==> i in g && BelowCenter(pixels[i], ch, bd)
    ensures forall i :: i in h.upper ==> i in g && !BelowCenter(pixels[i], ch, bd)
  {
    if |g| == 0 then Halves([], [])
    else
      var g' := g[..|g| - 1];
      var h := Split(pixels, g', ch, bd);
      var i := g[|g| - 1];
      assert g == g' + [i];
      if BelowCenter(pixels[i], ch, bd) then Halves(h.lower + [i], h.upper)
      else Halves(h.lower, h.upper + [i])
  }

  /** Splitting along a channel whose range is positive leaves both halves
      non-empty: the minimum lies below the center, the maximum does not. */
  lemma SplitBothNonEmpty(pixels: seq<Color>, g: Group, ch: Channel)
    requires ValidGroup(|pixels|, g)
    requires BoundsOf(pixels, g).Range(ch) > 0
    ensures |Split(pixels, g, ch, BoundsOf(pixels, g)).lower| > 0
    ensures |Split(pixels, g, ch, BoundsOf(pixels, g)).upper| > 0
  {
    var bd := BoundsOf(pixels, g);
    var h := Split(pixels, g, ch, bd);
    BoundsOfTight(pixels, g, ch);
    var jl :| 0 <= jl < |g| && pixels[g[jl]].Get(ch) == bd.lo.Get(ch);
    var jh :| 0 <= jh < |g| && pixels[g[jh]].Get(ch) == bd.hi.Get(ch);
    assert g[jl] in multiset(h.lower) + multiset(h.upper);
    assert g[jl] !in h.upper;
    assert g[jh] in multiset(h.lower) + multiset(h.upper);
    assert g[jh] !in h.lower;
  }

  /** The members of a split are those of the group. */
  lemma SplitWithin(pixels: seq<Color>, g: Group, ch: Channel, bd: Bounds)
    requires Within(|pixels|, g)
    ensures Within(|pixels|, Split(pixels, g, ch, bd).lower)
    ensures Within(|pixels|, Split(pixels, g, ch, bd).upper)
  {
    var h := Split(pixels, g, ch, bd);
    assert forall j :: 0 <= j < |h.lower| ==> h.lower[j] in g;
    assert forall j :: 0 <= j < |h.upper| ==> h.upper[j] in g;
  }

  /** The channel sum of the members (sumR, sumG, sumB at MedianCut.cpp:114-121). */
  function Sum(pixels: seq<Color>, g: Group, ch: Channel): int
    requires Within(|pixels|, g)
  {
    if |g| == 0 then 0 else Sum(pixels, g[..|g| - 1], ch) + pixels[g[|g| - 1]].Get(ch)
  }

  /** A sum of |g| values in [lo, hi] lies in [|g| * lo, |g| * hi]. */
  lemma {:induction false} SumBetween(pixels: seq<Color>, g: Group, ch: Channel, lo: int, hi: int)
    requires Within(|pixels|, g)
    requires forall j :: 0 <= j < |g| ==> lo <= pixels[g[j]].Get(ch) <= hi
    ensures |g| * lo <= Sum(pixels, g, ch) <= |g| * hi
  {
    if |g| > 0 {
      var g' := g[..|g| - 1];
      assert forall j :: 0 <= j < |g'| ==> g'[j] == g[j];
      SumBetween(pixels, g', ch, lo, hi);
      MulSucc(|g'|, lo);
      MulSucc(|g'|, hi);
    }
  }

  /** The sum depends only on the colours of the members. */
  lemma {:induction false} SumAgrees(p: seq<Color>, q: seq<Color>, g: Group, ch: Channel)
    requires Within(|p|, g) && Within(|q|, g)
    requires forall j :: 0 <= j < |g| ==> p[g[j]] == q[g[j]]
    ensures Sum(p, g, ch) == Sum(q, g, ch)
  {
    if |g| > 0 {
      var g' := g[..|g| - 1];
      assert forall j :: 0 <= j < |g'| ==> g'[j] == g[j];
      SumAgrees(p, q, g', ch);
    }
  }

  lemma MulSucc(m: int, x: int)
    ensures (m + 1) * x == m * x + x
  {
  }

  /** Multiplying by a non-negative n keeps the order of a and b. */
  lemma {:induction false} MulMonotone(n: int, a: int, b: int)
    requires n >= 0
    ensures a <= b ==> n * a <= n * b
    decreases n
  {
    if n > 0 {
      MulMonotone(n - 1, a, b);
      MulSucc(n - 1, a);
      MulSucc(n - 1, b);
    }
  }

  /** Floor division of a sum of n values in [lo, hi] stays in [lo, hi]. */
  lemma FloorMeanBetween(s: int, n: int, lo: int, hi: int)
    requires n > 0 && n * lo <= s <= n * hi
    ensures lo <= s / n <= hi
    ensures (s / n) * n <= s < (s / n + 1) * n
  {
    var q, r := s / n, s % n;
    assert s == n * q + r && 0 <= r < n;
    MulSucc(q, n);
    assert n * (q + 1) == n * q + n;
    MulMonotone(n, q + 1, lo);
    MulMonotone(n, hi + 1, q);
    MulSucc(hi, n);
  }

  /** Dividing n copies of v by n gives v back. */
  lemma DivExact(n: int, v: int)
    requires n > 0
    ensures (n * v) / n == v
  {
    FloorMeanBetween(n * v, n, v, v);
  }

  /** The floor mean of one channel over a non-empty group
      (sum / group.size() at MedianCut.cpp:124-126). It is the floor of the
      sum divided by the member count (MeanFloor) and lies inside the
      group's bounds, so the cast to uint8_t never truncates. */
  function Mean(pixels: seq<Color>, g: Group, ch: Channel): (m: Byte)
    requires ValidGroup(|pixels|, g)
    ensures BoundsOf(pixels, g).lo.Get(ch) <= m <= BoundsOf(pixels, g).hi.Get(ch)
  {
    var bd, s, n := BoundsOf(pixels, g), Sum(pixels, g, ch), |g|;
    BoundsOfTight(pixels, g, ch);
    SumBetween(pixels, g, ch, bd.lo.Get(ch), bd.hi.Get(ch));
    FloorMeanBetween(s, n, bd.lo.Get(ch), bd.hi.Get(ch));
    s / n
  }

  /** The mean is the largest value whose multiple by the member count does
      not pass the sum. */
  lemma MeanFloor(pixels: seq<Color>, g: Group, ch: Channel)
    requires ValidGroup(|pixels|, g)
    ensures Mean(pixels, g, ch) * |g| <= Sum(pixels, g, ch) < (Mean(pixels, g, ch) + 1) * |g|
  {
    var bd := BoundsOf(pixels, g);
    BoundsOfTight(pixels, g, ch);
    SumBetween(pixels, g, ch, bd.lo.Get(ch), bd.hi.Get(ch));
    FloorMeanBetween(Sum(pixels, g, ch), |g|, bd.lo.Get(ch), bd.hi.Get(ch));
  }

  /** The palette entry of a group (avgColor at MedianCut.cpp:123-127): the
      floor mean of every channel, which lies inside the group's box. */
  function MeanColor(pixels: seq<Color>, g: Group): (c: Color)
    requires ValidGroup(|pixels|, g)
    ensures forall ch: Channel :: c.Get(ch) == Mean(pixels, g, ch)
    ensures forall ch: Channel ::
      BoundsOf(pixels, g).lo.Get(ch) <= c.Get(ch) <= BoundsOf(pixels, g).hi.Get(ch)
  {
    Color(Mean(pixels, g, Red), Mean(pixels, g, Green), Mean(pixels, g, Blue))
  }

  /** The mean colour depends only on the colours of the members. */
  lemma MeanColorAgrees(p: seq<Color>, q: seq<Color>, g: Group)
    requires ValidGroup(|p|, g) && ValidGroup(|q|, g)
    requires forall j :: 0 <= j < |g| ==> p[g[j]] == q[g[j]]
    ensures MeanColor(p, g) == MeanColor(q, g)
  {
    SumAgrees(p, q, g, Red);
    SumAgrees(p, q, g, Green);
    SumAgrees(p, q, g, Blue);
  }

  /** A single-coloured group averages to its colour. */
  lemma UniformMean(pixels: seq<Color>, g: Group)
    requires ValidGroup(|pixels|, g) && Uniform(pixels, g)
    ensures MeanColor(pixels, g) == pixels[g[0]]
  {
    var c := MeanColor(pixels, g);
    forall ch: Channel ensures c.Get(ch) == pixels[g[0]].Get(ch) {
      var v := pixels[g[0]].Get(ch);
      SumBetween(pixels, g, ch, v, v);
      assert Sum(pixels, g, ch) == |g| * v;
      DivExact(|g|, v);
    }
    SameChannels(c, pixels[g[0]]);
  }
}
