/** Median-cut colour reduction (medianCut, MedianCut.cpp:21-143).

    The split loop is specified by a function of the pixels and the target
    count: `Step` is one pass of the loop body, `Run` iterates it while the
    loop guard holds, and `FinalGroups` is the list of groups the averaging
    phase receives. The methods follow the source's loops and are proved to
    compute exactly these functions; the lemmas state what the source
    promises about them. */
module MedianCut {
  import opened Colors
  import opened Groups
  import opened Boxes
  import opened PaletteOrder

  // ---------------------------------------------------------------------
  // The split loop as a function

  /** The first group with the most members (std::max_element by size at
      MedianCut.cpp:39-40). */
  function Largest(gs: seq<Group>): (k: nat)
    requires |gs| > 0
    ensures k < |gs|
    ensures forall j :: 0 <= j < |gs| ==> |gs[j]| <= |gs[k]|
    ensures forall j :: 0 <= j < k ==> |gs[j]| < |gs[k]|
  {
    if |gs| == 1 then 0
    else
      var k := Largest(gs[..|gs| - 1]);
      if |gs[k]| < |gs[|gs| - 1]| then |gs| - 1 else k
  }

  /** The state of the split loop: the work list tmpGroups and the terminal
      list finalGroups. */
  datatype State = State(tmp: seq<Group>, final: seq<Group>) {
    /** The number of groups the loop guard compares with the target. */
    function Count(): nat {
      |tmp| + |final|
    }
  }

  /** No group of either list is empty, and every member indexes the buffer. */
  ghost predicate Valid(n: nat, st: State) {
    WellFormed(n, st.tmp) && WellFormed(n, st.final)
  }

  /** The loop starts with one group holding every index. */
  function Initial(n: nat): State {
    State([Indices(n)], [])
  }

  /** A half is pushed back only when it is non-empty (MedianCut.cpp:102-103). */
  function IfNonEmpty(g: Group): seq<Group> {
    if |g| > 0 then [g] else []
  }

  lemma FlattenIfNonEmpty(g: Group)
    ensures Flatten(IfNonEmpty(g)) == g
  {
    if |g| > 0 {
      FlattenSingle(g);
    }
  }

  /** A non-degenerate group has a positive range on its widest channel. */
  lemma WidestPositive(pixels: seq<Color>, g: Group)
    requires ValidGroup(|pixels|, g)
    requires !Degenerate(BoundsOf(pixels, g))
    ensures BoundsOf(pixels, g).Range(WidestAxis(BoundsOf(pixels, g))) > 0
  {
    BoundsOfTight(pixels, g, Red);
    BoundsOfTight(pixels, g, Green);
    BoundsOfTight(pixels, g, Blue);
  }

  /** One pass of the loop body (MedianCut.cpp:39-103): take out the largest
      group; a single-coloured one becomes terminal, any other is split at
      the center of its widest channel and the non-empty halves go to the
      end of the work list. A pass either adds exactly one group or moves
      one group from the work list to the terminal list. */
  function Step(pixels: seq<Color>, st: State): (r: State)
    requires Valid(|pixels|, st) && |st.tmp| > 0
    ensures Valid(|pixels|, r)
    ensures r.Count() == st.Count() + 1 || (r.Count() == st.Count() && |r.tmp| + 1 == |st.tmp|)
  {
    var k := Largest(st.tmp);
    var g := st.tmp[k];
    var rest := st.tmp[..k] + st.tmp[k + 1..];
    var bd := BoundsOf(pixels, g);
    if Degenerate(bd) then
      State(rest, st.final + [g])
    else
      var ch := WidestAxis(bd);
      var h := Split(pixels, g, ch, bd);
      WidestPositive(pixels, g);
      SplitBothNonEmpty(pixels, g, ch);
      SplitWithin(pixels, g, ch, bd);
      State(rest + IfNonEmpty(h.lower) + IfNonEmpty(h.upper), st.final)
  }

  /** The split loop (MedianCut.cpp:37-104): it runs while fewer than
      maxCount groups exist and the work list is not empty. It never lowers
      the group count, never passes maxCount, and stops either at maxCount
      or with an empty work list. */
  function Run(pixels: seq<Color>, st: State, maxCount: int): (r: State)
    requires Valid(|pixels|, st)
    ensures Valid(|pixels|, r)
    ensures st.Count() <= r.Count()
    ensures st.Count() <= maxCount ==> r.Count() <= maxCount
    ensures r.Count() >= maxCount || |r.tmp| == 0
    decreases maxCount - st.Count(), |st.tmp|
  {
    if st.Count() < maxCount && |st.tmp| > 0 then Run(pixels, Step(pixels, st), maxCount) else st
  }

  /** The groups the averaging phase works on: the terminal list followed by
      what is left of the work list (MedianCut.cpp:107); none for an empty
      image (MedianCut.cpp:30). There are at most maxCount of them, or one
      when maxCount is below one, and none is empty. */
  function FinalGroups(pixels: seq<Color>, maxCount: int): (gs: seq<Group>)
    ensures WellFormed(|pixels|, gs)
    ensures |gs| <= if maxCount > 1 then maxCount else 1
    ensures |pixels| > 0 <==> |gs| > 0
  {
    if |pixels| == 0 then []
    else
      var st := Run(pixels, Initial(|pixels|), maxCount);
      assert forall k :: 0 <= k < |st.final + st.tmp| ==>
        (st.final + st.tmp)[k] == if k < |st.final| then st.final[k] else st.tmp[k - |st.final|];
      st.final + st.tmp
  }

  // ---------------------------------------------------------------------
  // Every pixel stays in exactly one group

  /** All members of both lists. */
  ghost function Members(st: State): multiset<nat> {
    multiset(Flatten(st.tmp)) + multiset(Flatten(st.final))
  }

  /** Moving the taken-out group to the terminal list keeps the members. */
  lemma MembersTerminal(st: State, rest: seq<Group>, g: Group)
    requires multiset(Flatten(st.tmp)) == multiset(Flatten(rest)) + multiset(g)
    ensures Members(State(rest, st.final + [g])) == Members(st)
  {
    FlattenConcat(st.final, [g]);
    FlattenSingle(g);
    assert multiset(Flatten(st.final + [g])) == multiset(Flatten(st.final)) + multiset(g);
  }

  /** Pushing back the halves of the taken-out group keeps the members. */
  lemma MembersSplit(st: State, rest: seq<Group>, g: Group, lower: Group, upper: Group)
    requires multiset(Flatten(st.tmp)) == multiset(Flatten(rest)) + multiset(g)
    requires multiset(lower) + multiset(upper) == multiset(g)
    ensures Members(State(rest + IfNonEmpty(lower) + IfNonEmpty(upper), st.final)) == Members(st)
  {
    var tmp := rest + IfNonEmpty(lower) + IfNonEmpty(upper);
    FlattenConcat(rest + IfNonEmpty(lower), IfNonEmpty(upper));
    FlattenConcat(rest, IfNonEmpty(lower));
    FlattenIfNonEmpty(lower);
    FlattenIfNonEmpty(upper);
    assert Flatten(tmp) == Flatten(rest) + lower + upper;
    assert multiset(Flatten(tmp)) == multiset(Flatten(rest)) + multiset(lower) + multiset(upper);
  }

  /** A pass of the loop neither drops nor duplicates a member. */
  lemma StepKeepsMembers(pixels: seq<Color>, st: State)
    requires Valid(|pixels|, st) && |st.tmp| > 0
    ensures Members(Step(pixels, st)) == Members(st)
  {
    var k := Largest(st.tmp);
    var g := st.tmp[k];
    var rest := st.tmp[..k] + st.tmp[k + 1..];
    var bd := BoundsOf(pixels, g);
    FlattenRemove(st.tmp, k);
    if Degenerate(bd) {
      assert Step(pixels, st) == State(rest, st.final + [g]);
      MembersTerminal(st, rest, g);
    } else {
      var h := Split(pixels, g, WidestAxis(bd), bd);
      assert Step(pixels, st) == State(rest + IfNonEmpty(h.lower) + IfNonEmpty(h.upper), st.final);
      MembersSplit(st, rest, g, h.lower, h.upper);
    }
  }

  lemma {:induction false} RunKeepsMembers(pixels: seq<Color>, st: State, maxCount: int)
    requires Valid(|pixels|, st)
    ensures Members(Run(pixels, st, maxCount)) == Members(st)
    decreases maxCount - st.Count(), |st.tmp|
  {
    if st.Count() < maxCount && |st.tmp| > 0 {
      StepKeepsMembers(pixels, st);
      RunKeepsMembers(pixels, Step(pixels, st), maxCount);
    }
  }

  /** The final groups partition the pixel indices: each index lies in
      exactly one group (MedianCut.cpp:33, 44-45, 92-103, 107). */
  lemma FinalGroupsPartition(pixels: seq<Color>, maxCount: int)
    ensures Partitions(FinalGroups(pixels, maxCount), |pixels|)
  {
    var n := |pixels|;
    if n > 0 {
      var st := Run(pixels, Initial(n), maxCount);
      RunKeepsMembers(pixels, Initial(n), maxCount);
      FlattenSingle(Indices(n));
      FlattenConcat(st.final, st.tmp);
    }
  }

  // ---------------------------------------------------------------------
  // Terminal groups are single-coloured

  ghost predicate AllUniform(pixels: seq<Color>, gs: seq<Group>)
    requires WellFormed(|pixels|, gs)
  {
    forall k :: 0 <= k < |gs| ==> Uniform(pixels, gs[k])
  }

  lemma StepKeepsFinalUniform(pixels: seq<Color>, st: State)
    requires Valid(|pixels|, st) && |st.tmp| > 0
    requires AllUniform(pixels, st.final)
    ensures AllUniform(pixels, Step(pixels, st).final)
  {
    var g := st.tmp[Largest(st.tmp)];
    DegenerateIffUniform(pixels, g);
  }

  lemma {:induction false} RunKeepsFinalUniform(pixels: seq<Color>, st: State, maxCount: int)
    requires Valid(|pixels|, st)
    requires AllUniform(pixels, st.final)
    ensures AllUniform(pixels, Run(pixels, st, maxCount).final)
    decreases maxCount - st.Count(), |st.tmp|
  {
    if st.Count() < maxCount && |st.tmp| > 0 {
      StepKeepsFinalUniform(pixels, st);
      RunKeepsFinalUniform(pixels, Step(pixels, st), maxCount);
    }
  }

  /** The loop stops short of maxCount groups only when every group is
      single-coloured: it ends early only once the work list is empty, and
      only single-coloured groups ever become terminal. */
  lemma FewerGroupsOnlyWhenUniform(pixels: seq<Color>, maxCount: int)
    requires |FinalGroups(pixels, maxCount)| < maxCount
    ensures AllUniform(pixels, FinalGroups(pixels, maxCount))
  {
    if |pixels| > 0 {
      RunKeepsFinalUniform(pixels, Initial(|pixels|), maxCount);
      var st := Run(pixels, Initial(|pixels|), maxCount);
      assert st.final + st.tmp == st.final;
    }
  }

  // ---------------------------------------------------------------------
  // Recolouring

  /** Every member of g set to c (the loop at MedianCut.cpp:130-132). */
  function PaintGroup(pixels: seq<Color>, g: Group, c: Color): (r: seq<Color>)
    requires Within(|pixels|, g)
    ensures |r| == |pixels|
    ensures forall i :: 0 <= i < |pixels| ==> r[i] == if i in g then c else pixels[i]
  {
    if |g| == 0 then pixels
    else
      var g' := g[..|g| - 1];
      assert g == g' + [g[|g| - 1]];
      PaintGroup(pixels, g', c)[g[|g| - 1] := c]
  }

  /** Group k painted with colour ms[k], for every group in order
      (MedianCut.cpp:113-135). */
  function Recolor(pixels: seq<Color>, gs: seq<Group>, ms: seq<Color>): (r: seq<Color>)
    requires |gs| == |ms| && WellFormed(|pixels|, gs)
    ensures |r| == |pixels|
  {
    if |gs| == 0 then pixels
    else
      var m := |gs| - 1;
      assert WellFormed(|pixels|, gs[..m]);
      PaintGroup(Recolor(pixels, gs[..m], ms[..m]), gs[m], ms[m])
  }

  lemma RecolorSingle(pixels: seq<Color>, g: Group, c: Color)
    requires ValidGroup(|pixels|, g)
    ensures Recolor(pixels, [g], [c]) == PaintGroup(pixels, g, c)
  {
    assert [g][..0] == [] && [c][..0] == [];
    assert Recolor(pixels, [g][..0], [c][..0]) == pixels;
  }

  /** When the groups are disjoint, every member of group k ends with colour ms[k]. */
  lemma {:induction false} RecolorAt(pixels: seq<Color>, gs: seq<Group>, ms: seq<Color>, k: nat, j: nat)
    requires |gs| == |ms| && WellFormed(|pixels|, gs) && Disjoint(gs)
    requires k < |gs| && j < |gs[k]|
    ensures Recolor(pixels, gs, ms)[gs[k][j]] == ms[k]
  {
    var m := |gs| - 1;
    if k < m {
      assert Disjoint(gs[..m]) by {
        forall k1, k2, j' | 0 <= k1 < m && 0 <= k2 < m && k1 != k2 && 0 <= j' < |gs[k1]|
          ensures gs[..m][k1][j'] !in gs[..m][k2]
        {
          assert gs[k1][j'] !in gs[k2];
        }
      }
      RecolorAt(pixels, gs[..m], ms[..m], k, j);
      assert gs[k][j] !in gs[m];
    }
  }

  /** A pixel that no group holds keeps its colour. */
  lemma {:induction false} RecolorOutside(pixels: seq<Color>, gs: seq<Group>, ms: seq<Color>, i: nat)
    requires |gs| == |ms| && WellFormed(|pixels|, gs)
    requires i < |pixels|
    requires forall k :: 0 <= k < |gs| ==> i !in gs[k]
    ensures Recolor(pixels, gs, ms)[i] == pixels[i]
  {
    if |gs| > 0 {
      var m := |gs| - 1;
      RecolorOutside(pixels, gs[..m], ms[..m], i);
    }
  }

  /** Before group k is recoloured its members still have their first colour. */
  lemma NotYetRecolored(pixels: seq<Color>, gs: seq<Group>, ms: seq<Color>, k: nat)
    requires |gs| == |ms| && WellFormed(|pixels|, gs) && Disjoint(gs)
    requires k < |gs|
    ensures WellFormed(|pixels|, gs[..k])
    ensures forall j :: 0 <= j < |gs[k]| ==> Recolor(pixels, gs[..k], ms[..k])[gs[k][j]] == pixels[gs[k][j]]
  {
    assert WellFormed(|pixels|, gs[..k]);
    forall j | 0 <= j < |gs[k]| ensures Recolor(pixels, gs[..k], ms[..k])[gs[k][j]] == pixels[gs[k][j]] {
      RecolorOutside(pixels, gs[..k], ms[..k], gs[k][j]);
    }
  }

  /** Recolouring one more group extends the prefix by one PaintGroup. */
  lemma RecolorPrefix(pixels: seq<Color>, gs: seq<Group>, ms: seq<Color>, k: nat)
    requires |gs| == |ms| && WellFormed(|pixels|, gs)
    requires k < |gs|
    ensures WellFormed(|pixels|, gs[..k]) && WellFormed(|pixels|, gs[..k + 1])
    ensures Recolor(pixels, gs[..k + 1], ms[..k + 1]) ==
      PaintGroup(Recolor(pixels, gs[..k], ms[..k]), gs[k], ms[k])
  {
    assert WellFormed(|pixels|, gs[..k]) && WellFormed(|pixels|, gs[..k + 1]);
    assert gs[..k + 1][..k] == gs[..k] && ms[..k + 1][..k] == ms[..k];
  }

  /** The mean colour of every group, in group order: the palette before it
      is sorted (MedianCut.cpp:110-135). */
  function Means(pixels: seq<Color>, gs: seq<Group>): (ms: seq<Color>)
    requires WellFormed(|pixels|, gs)
  {
    seq(|gs|, (k: int) requires 0 <= k < |gs| => MeanColor(pixels, gs[k]))
  }

  /** The image after the call: each pixel recoloured with its group's mean. */
  function Quantized(pixels: seq<Color>, maxCount: int): (q: seq<Color>)
    ensures |q| == |pixels|
  {
    var gs := FinalGroups(pixels, maxCount);
    Recolor(pixels, gs, Means(pixels, gs))
  }

  /** After the call every pixel carries the mean colour of the group that
      holds its index, so every pixel is a palette entry
      (MedianCut.cpp:123-134). */
  lemma QuantizedPixels(pixels: seq<Color>, maxCount: int)
    ensures forall k, j :: 0 <= k < |FinalGroups(pixels, maxCount)| && 0 <= j < |FinalGroups(pixels, maxCount)[k]| ==>
      Quantized(pixels, maxCount)[FinalGroups(pixels, maxCount)[k][j]] ==
        MeanColor(pixels, FinalGroups(pixels, maxCount)[k])
    ensures forall i :: 0 <= i < |pixels| ==>
      Quantized(pixels, maxCount)[i] in Means(pixels, FinalGroups(pixels, maxCount))
  {
    var gs := FinalGroups(pixels, maxCount);
    var ms := Means(pixels, gs);
    FinalGroupsPartition(pixels, maxCount);
    PartitionDisjoint(gs, |pixels|);
    forall k, j | 0 <= k < |gs| && 0 <= j < |gs[k]|
      ensures Quantized(pixels, maxCount)[gs[k][j]] == MeanColor(pixels, gs[k])
    {
      RecolorAt(pixels, gs, ms, k, j);
    }
    forall i | 0 <= i < |pixels| ensures Quantized(pixels, maxCount)[i] in ms {
      PartitionCovers(gs, |pixels|, i);
      var k :| 0 <= k < |gs| && i in gs[k];
      var j :| 0 <= j < |gs[k]| && gs[k][j] == i;
      RecolorAt(pixels, gs, ms, k, j);
    }
  }

  // ---------------------------------------------------------------------
  // Consequences for whole images

  /** A list of colours holds at most as many distinct colours as entries. */
  lemma {:induction false} DistinctAtMost(s: seq<Color>)
    ensures |set c | c in s| <= |s|
  {
    if |s| > 0 {
      var s' := s[..|s| - 1];
      DistinctAtMost(s');
      assert (set c | c in s) == (set c | c in s') + {s[|s| - 1]};
    }
  }

  lemma SubsetAtMost(a: set<Color>, b: set<Color>)
    requires a <= b
    ensures |a| <= |b|
  {
    assert b == a + (b - a);
  }

  /** When every group is single-coloured, every colour of the image is
      the mean of some group. */
  lemma UniformGroupsKeepColours(pixels: seq<Color>, gs: seq<Group>)
    requires WellFormed(|pixels|, gs) && Partitions(gs, |pixels|) && AllUniform(pixels, gs)
    ensures (set c | c in pixels) <= (set c | c in Means(pixels, gs))
  {
    var ms := Means(pixels, gs);
    forall c | c in pixels ensures c in ms {
      var i :| 0 <= i < |pixels| && pixels[i] == c;
      PartitionCovers(gs, |pixels|, i);
      var k :| 0 <= k < |gs| && i in gs[k];
      UniformMean(pixels, gs[k]);
      assert ms[k] == c;
    }
  }

  /** An image with at least maxCount distinct colours is reduced to exactly
      maxCount groups, so the palette has exactly maxCount entries. */
  lemma EnoughColoursFillPalette(pixels: seq<Color>, maxCount: int)
    requires maxCount >= 1
    requires |set c | c in pixels| >= maxCount
    ensures |FinalGroups(pixels, maxCount)| == maxCount
  {
    var gs := FinalGroups(pixels, maxCount);
    if |gs| < maxCount {
      FewerGroupsOnlyWhenUniform(pixels, maxCount);
      FinalGroupsPartition(pixels, maxCount);
      UniformGroupsKeepColours(pixels, gs);
      SubsetAtMost(set c | c in pixels, set c | c in Means(pixels, gs));
      DistinctAtMost(Means(pixels, gs));
    }
  }

  /** On a single-coloured image the first pass makes the initial group terminal. */
  lemma SingleColourFirstStep(pixels: seq<Color>)
    requires |pixels| > 0
    requires forall i :: 0 <= i < |pixels| ==> pixels[i] == pixels[0]
    ensures Step(pixels, Initial(|pixels|)) == State([], [Indices(|pixels|)])
  {
    var n := |pixels|;
    var all := Indices(n);
    assert ValidGroup(n, all) && all[0] == 0;
    assert Uniform(pixels, all);
    DegenerateIffUniform(pixels, all);
    assert Largest([all]) == 0;
  }

  /** On a single-coloured image the loop ends after its first pass, with
      the whole image as the one terminal group. */
  lemma SingleColourRun(pixels: seq<Color>, maxCount: int)
    requires |pixels| > 0
    requires forall i :: 0 <= i < |pixels| ==> pixels[i] == pixels[0]
    ensures var n := |pixels|;
      Run(pixels, Initial(n), maxCount) ==
        if maxCount > 1 then State([], [Indices(n)]) else Initial(n)
  {
    var n := |pixels|;
    if maxCount > 1 {
      SingleColourFirstStep(pixels);
      var st := State([], [Indices(n)]);
      assert Run(pixels, st, maxCount) == st;
    }
  }

  /** A single-coloured image forms one group. */
  lemma SingleColourGroups(pixels: seq<Color>, maxCount: int)
    requires |pixels| > 0
    requires forall i :: 0 <= i < |pixels| ==> pixels[i] == pixels[0]
    ensures FinalGroups(pixels, maxCount) == [Indices(|pixels|)]
  {
    var n := |pixels|;
    SingleColourRun(pixels, maxCount);
    var st := Run(pixels, Initial(n), maxCount);
    assert FinalGroups(pixels, maxCount) == st.final + st.tmp;
    if maxCount > 1 {
      assert st == State([], [Indices(n)]);
    } else {
      assert st == State([Indices(n)], []);
    }
  }

  /** One group holding a whole single-coloured image averages to its
      colour and repaints nothing. */
  lemma SingleColourWholeGroup(pixels: seq<Color>)
    requires |pixels| > 0
    requires forall i :: 0 <= i < |pixels| ==> pixels[i] == pixels[0]
    ensures WellFormed(|pixels|, [Indices(|pixels|)])
    ensures Means(pixels, [Indices(|pixels|)]) == [pixels[0]]
    ensures Recolor(pixels, [Indices(|pixels|)], [pixels[0]]) == pixels
  {
    var n := |pixels|;
    var all := Indices(n);
    SingleColourMean(pixels, all);
    SingleColourRepaint(pixels, all);
    assert [all][0] == all;
  }

  lemma SingleColourMean(pixels: seq<Color>, all: Group)
    requires |pixels| > 0 && all == Indices(|pixels|)
    requires forall i :: 0 <= i < |pixels| ==> pixels[i] == pixels[0]
    ensures ValidGroup(|pixels|, all)
    ensures Means(pixels, [all]) == [pixels[0]]
  {
    assert all[0] == 0;
    assert Uniform(pixels, all);
    UniformMean(pixels, all);
  }

  lemma SingleColourRepaint(pixels: seq<Color>, all: Group)
    requires |pixels| > 0 && all == Indices(|pixels|)
    requires forall i :: 0 <= i < |pixels| ==> pixels[i] == pixels[0]
    ensures ValidGroup(|pixels|, all)
    ensures Recolor(pixels, [all], [pixels[0]]) == pixels
  {
    var c := pixels[0];
    RecolorSingle(pixels, all, c);
    var q := PaintGroup(pixels, all, c);
    forall i | 0 <= i < |pixels| ensures q[i] == pixels[i] {
      assert all[i] == i;
    }
  }

  /** A single-coloured image (a one-pixel image in particular) has that
      colour as its only palette entry and is left unchanged
      (MedianCut.cpp:65-68, 130-134). */
  lemma SingleColourImage(pixels: seq<Color>, maxCount: int)
    requires |pixels| > 0
    requires forall i :: 0 <= i < |pixels| ==> pixels[i] == pixels[0]
    ensures FinalGroups(pixels, maxCount) == [Indices(|pixels|)]
    ensures Means(pixels, FinalGroups(pixels, maxCount)) == [pixels[0]]
    ensures Quantized(pixels, maxCount) == pixels
  {
    SingleColourGroups(pixels, maxCount);
    SingleColourWholeGroup(pixels);
  }

  /** A C++ int. */
  type CInt = x: int | -0x8000_0000 <= x < 0x8000_0000

  /** static_cast<size_t>(maxColorGroupCount) in the loop guard of
      MedianCut.cpp:37: C++ reduces the int modulo 2^64, so a negative
      count becomes a bound above 2^63 that no image reaches. */
  function GroupLimit(maxColorGroupCount: CInt): (bound: nat)
    ensures maxColorGroupCount >= 0 ==> bound == maxColorGroupCount
    ensures maxColorGroupCount < 0 ==> bound == maxColorGroupCount + 0x1_0000_0000_0000_0000
  {
    maxColorGroupCount % 0x1_0000_0000_0000_0000
  }

  /** A work list of one group that is not single-coloured is replaced by
      the non-empty halves of that group. */
  lemma StepSingleSplit(pixels: seq<Color>, st: State, g: Group, bd: Bounds, h: Halves)
    requires Valid(|pixels|, st) && st.tmp == [g] && ValidGroup(|pixels|, g)
    requires bd == BoundsOf(pixels, g) && !Degenerate(bd)
    requires h == Split(pixels, g, WidestAxis(bd), bd)
    ensures Step(pixels, st) == State(IfNonEmpty(h.lower) + IfNonEmpty(h.upper), st.final)
  {
    assert Largest(st.tmp) == 0;
    assert st.tmp[..0] + st.tmp[1..] == [];
    var parts := IfNonEmpty(h.lower) + IfNonEmpty(h.upper);
    assert [] + IfNonEmpty(h.lower) + IfNonEmpty(h.upper) == parts;
  }

  /** The box of a black and a white pixel spans every channel. */
  lemma BlackAndWhiteBounds(pixels: seq<Color>)
    requires pixels == [Color(0, 0, 0), Color(255, 255, 255)]
    ensures BoundsOf(pixels, [0, 1]) == Bounds(Color(0, 0, 0), Color(255, 255, 255))
  {
    var all: Group := [0, 1];
    assert all[..1] == [0];
    assert [0][..0] == [];
  }

  /** Split on red at the center 127.5, black goes low and white goes high. */
  lemma BlackAndWhiteSplit(pixels: seq<Color>)
    requires pixels == [Color(0, 0, 0), Color(255, 255, 255)]
    ensures Split(pixels, [0, 1], Red, Bounds(Color(0, 0, 0), Color(255, 255, 255))) == Halves([0], [1])
  {
    var all: Group := [0, 1];
    var bd := Bounds(Color(0, 0, 0), Color(255, 255, 255));
    assert all[..1] == [0];
    assert [0][..0] == [];
    assert BelowCenter(pixels[0], Red, bd) && !BelowCenter(pixels[1], Red, bd);
  }

  /** The first pass on a black and a white pixel splits on the red axis,
      the first of three equal ranges. */
  lemma BlackAndWhiteStep(pixels: seq<Color>, st: State)
    requires pixels == [Color(0, 0, 0), Color(255, 255, 255)]
    requires st == State([[0, 1]], [])
    ensures Valid(2, st)
    ensures Step(pixels, st) == State([[0], [1]], [])
  {
    BlackAndWhiteBox(pixels, st.tmp[0]);
    var h := Halves([0], [1]);
    StepSingleSplit(pixels, st, st.tmp[0], BoundsOf(pixels, st.tmp[0]), h);
    assert IfNonEmpty(h.lower) + IfNonEmpty(h.upper) == [[0], [1]];
  }

  /** The one group of a black and a white pixel is split on red into black
      and white. */
  lemma BlackAndWhiteBox(pixels: seq<Color>, g: Group)
    requires pixels == [Color(0, 0, 0), Color(255, 255, 255)]
    requires g == [0, 1]
    ensures ValidGroup(2, g)
    ensures !Degenerate(BoundsOf(pixels, g)) && WidestAxis(BoundsOf(pixels, g)) == Red
    ensures Split(pixels, g, Red, BoundsOf(pixels, g)) == Halves([0], [1])
  {
    var bd := Bounds(Color(0, 0, 0), Color(255, 255, 255));
    assert BoundsOf(pixels, g) == bd by {
      BlackAndWhiteBounds(pixels);
    }
    assert bd.Range(Red) == 255 && bd.Range(Green) == 255 && bd.Range(Blue) == 255;
    assert Split(pixels, g, Red, bd) == Halves([0], [1]) by {
      BlackAndWhiteSplit(pixels);
    }
  }

  /** A black and a white pixel with room for two colours: one split
      separates them, and both keep their colour. */
  lemma BlackAndWhite()
    ensures var pixels := [Color(0, 0, 0), Color(255, 255, 255)];
      FinalGroups(pixels, 2) == [[0], [1]] &&
      Means(pixels, [[0], [1]]) == pixels &&
      Quantized(pixels, 2) == pixels
  {
    var pixels := [Color(0, 0, 0), Color(255, 255, 255)];
    var st := State([[0], [1]], []);
    assert Run(pixels, Initial(2), 2) == st by {
      assert Indices(2) == [0, 1];
      BlackAndWhiteStep(pixels, Initial(2));
      assert Run(pixels, st, 2) == st;
    }
    assert FinalGroups(pixels, 2) == [[0], [1]];
    BlackAndWhiteColours(pixels);
  }

  lemma BlackAndWhiteColours(pixels: seq<Color>)
    requires pixels == [Color(0, 0, 0), Color(255, 255, 255)]
    requires FinalGroups(pixels, 2) == [[0], [1]]
    ensures Means(pixels, [[0], [1]]) == pixels
    ensures Quantized(pixels, 2) == pixels
  {
    BlackAndWhiteMeans(pixels);
    var q := Quantized(pixels, 2);
    QuantizedPixels(pixels, 2);
    assert q[0] == MeanColor(pixels, [0]) && q[1] == MeanColor(pixels, [1]) by {
      assert FinalGroups(pixels, 2)[0][0] == 0 && FinalGroups(pixels, 2)[1][0] == 1;
    }
  }

  lemma BlackAndWhiteMeans(pixels: seq<Color>)
    requires pixels == [Color(0, 0, 0), Color(255, 255, 255)]
    ensures MeanColor(pixels, [0]) == pixels[0] && MeanColor(pixels, [1]) == pixels[1]
    ensures Means(pixels, [[0], [1]]) == pixels
  {
    UniformMean(pixels, [0]);
    UniformMean(pixels, [1]);
    var ms := Means(pixels, [[0], [1]]);
    assert ms[0] == pixels[0] && ms[1] == pixels[1];
  }

  // ---------------------------------------------------------------------
  // The source's loops

  /** The index list of MedianCut.cpp:25-28. */
  method InitIndices(n: nat) returns (all: seq<nat>)
    ensures all == Indices(n)
  {
    var a := new nat[n];
    for i := 0 to n
      invariant forall j :: 0 <= j < i ==> a[j] == j
    {
      a[i] := i;
    }
    all := a[..];
  }

  /** The bounds scan of MedianCut.cpp:48-57. */
  method ComputeBounds(colorData: array<Color>, group: Group) returns (bd: Bounds)
    requires Within(colorData.Length, group)
    ensures bd == BoundsOf(colorData[..], group)
  {
    var rMin: Byte, rMax: Byte := 255, 0;
    var gMin: Byte, gMax: Byte := 255, 0;
    var bMin: Byte, bMax: Byte := 255, 0;
    for j := 0 to |group|
      invariant Bounds(Color(rMin, gMin, bMin), Color(rMax, gMax, bMax)) == BoundsOf(colorData[..], group[..j])
    {
      var c := colorData[group[j]];
      assert group[..j + 1][..j] == group[..j];
      rMin := if c.r < rMin then c.r else rMin;
      rMax := if rMax < c.r then c.r else rMax;
      gMin := if c.g < gMin then c.g else gMin;
      gMax := if gMax < c.g then c.g else gMax;
      bMin := if c.b < bMin then c.b else bMin;
      bMax := if bMax < c.b then c.b else bMax;
    }
    assert group[..|group|] == group;
    bd := Bounds(Color(rMin, gMin, bMin), Color(rMax, gMax, bMax));
  }

  /** The partition loop of MedianCut.cpp:88-99. */
  method SplitGroup(colorData: array<Color>, group: Group, ch: Channel, bd: Bounds)
    returns (lower: Group, upper: Group)
    requires Within(colorData.Length, group)
    ensures Halves(lower, upper) == Split(colorData[..], group, ch, bd)
  {
    lower, upper := [], [];
    for j := 0 to |group|
      invariant Halves(lower, upper) == Split(colorData[..], group[..j], ch, bd)
    {
      var idx := group[j];
      assert group[..j + 1][..j] == group[..j];
      if BelowCenter(colorData[idx], ch, bd) {
        lower := lower + [idx];
      } else {
        upper := upper + [idx];
      }
    }
    assert group[..|group|] == group;
  }

  /** The channel sums and the mean colour of MedianCut.cpp:114-127. */
  method GroupMean(colorData: array<Color>, group: Group) returns (avg: Color)
    requires ValidGroup(colorData.Length, group)
    ensures avg == MeanColor(colorData[..], group)
  {
    var sumR, sumG, sumB := 0, 0, 0;
    for j := 0 to |group|
      invariant sumR == Sum(colorData[..], group[..j], Red)
      invariant sumG == Sum(colorData[..], group[..j], Green)
      invariant sumB == Sum(colorData[..], group[..j], Blue)
    {
      var c := colorData[group[j]];
      assert group[..j + 1][..j] == group[..j];
      sumR, sumG, sumB := sumR + c.r, sumG + c.g, sumB + c.b;
    }
    assert group[..|group|] == group;
    ghost var mean := MeanColor(colorData[..], group);
    assert mean.r == sumR / |group| && mean.g == sumG / |group| && mean.b == sumB / |group|;
    avg := Color(sumR / |group|, sumG / |group|, sumB / |group|);
  }

  /** The overwrite loop of MedianCut.cpp:130-132. */
  method Paint(colorData: array<Color>, group: Group, c: Color)
    requires Within(colorData.Length, group)
    modifies colorData
    ensures colorData[..] == PaintGroup(old(colorData[..]), group, c)
  {
    for j := 0 to |group|
      invariant colorData[..] == PaintGroup(old(colorData[..]), group[..j], c)
    {
      assert group[..j + 1][..j] == group[..j];
      colorData[group[j]] := c;
    }
    assert group[..|group|] == group;
  }

  /** The split loop of MedianCut.cpp:33-107, for a non-empty image. */
  method SplitGroups(colorData: array<Color>, allIndices: Group, maxColorGroupCount: CInt)
    returns (groups: seq<Group>)
    requires colorData.Length > 0 && allIndices == Indices(colorData.Length)
    ensures groups == FinalGroups(colorData[..], GroupLimit(maxColorGroupCount))
  {
    ghost var pixels := colorData[..];
    ghost var n := colorData.Length;
    var limit := GroupLimit(maxColorGroupCount);
    var tmpGroups: seq<Group> := [allIndices];
    var finalGroups: seq<Group> := [];
    while |tmpGroups| + |finalGroups| < limit
      invariant Valid(n, State(tmpGroups, finalGroups))
      invariant Run(pixels, State(tmpGroups, finalGroups), limit) == Run(pixels, Initial(n), limit)
      decreases limit - (|tmpGroups| + |finalGroups|), |tmpGroups|
    {
      if |tmpGroups| == 0 {
        break;
      }
      ghost var before := State(tmpGroups, finalGroups);
      var k := Largest(tmpGroups);
      var group := tmpGroups[k];
      // The emptiness test of MedianCut.cpp:42 never fires.
      assert |group| > 0;
      tmpGroups := tmpGroups[..k] + tmpGroups[k + 1..];
      var bd := ComputeBounds(colorData, group);
      if bd.Range(Red) == 0 && bd.Range(Green) == 0 && bd.Range(Blue) == 0 {
        finalGroups := finalGroups + [group];
      } else {
        var ch := WidestAxis(bd);
        var lower, upper := SplitGroup(colorData, group, ch, bd);
        if |lower| > 0 {
          tmpGroups := tmpGroups + [lower];
        }
        if |upper| > 0 {
          tmpGroups := tmpGroups + [upper];
        }
      }
      assert State(tmpGroups, finalGroups) == Step(pixels, before);
    }
    groups := finalGroups + tmpGroups;
  }

  /** A prefix one longer is the prefix with the next element added. */
  lemma PrefixExtend<T>(s: seq<T>, k: nat)
    requires k < |s|
    ensures s[..k + 1] == s[..k] + [s[k]]
  {
  }

  /** The averaging and overwrite phase of MedianCut.cpp:110-135. */
  method RecolorGroups(colorData: array<Color>, groups: seq<Group>) returns (palette: array<Color>)
    requires WellFormed(colorData.Length, groups) && Partitions(groups, colorData.Length)
    modifies colorData
    ensures fresh(palette)
    ensures palette[..] == Means(old(colorData[..]), groups)
    ensures colorData[..] == Recolor(old(colorData[..]), groups, Means(old(colorData[..]), groups))
  {
    ghost var pixels := colorData[..];
    ghost var ms := Means(pixels, groups);
    palette := new Color[|groups|];
    for k := 0 to |groups|
      invariant colorData.Length == |pixels|
      invariant colorData[..] == Recolor(pixels, groups[..k], ms[..k])
      invariant palette[..k] == ms[..k]
    {
      var group := groups[k];
      assert ValidGroup(colorData.Length, group);
      assert MeanColor(colorData[..], group) == ms[k] by {
        PartitionDisjoint(groups, colorData.Length);
        NotYetRecolored(pixels, groups, ms, k);
        MeanColorAgrees(colorData[..], pixels, group);
      }
      var avg := GroupMean(colorData, group);
      Paint(colorData, group, avg);
      palette[k] := avg;
      PrefixExtend(palette[..], k);
      PrefixExtend(ms, k);
      RecolorPrefix(pixels, groups, ms, k);
    }
    assert groups[..|groups|] == groups && ms[..|groups|] == ms;
  }

  /** medianCut (MedianCut.cpp:21-143): reduces the image in place to at
      most maxColorGroupCount colours (one for a count of zero, no limit
      but the image for a negative one) and returns the palette sorted by
      brightness, with at most one entry per pixel. */
  method Quantize(colorData: array<Color>, maxColorGroupCount: CInt := 64) returns (palette: seq<Color>)
    modifies colorData
    ensures colorData[..] == Quantized(old(colorData[..]), GroupLimit(maxColorGroupCount))
    ensures multiset(palette) ==
      multiset(Means(old(colorData[..]), FinalGroups(old(colorData[..]), GroupLimit(maxColorGroupCount))))
    ensures SortedByBrightness(palette)
    ensures maxColorGroupCount >= 1 ==> |palette| <= maxColorGroupCount
    ensures maxColorGroupCount == 0 ==> |palette| <= 1
    ensures |palette| <= colorData.Length
    ensures forall i :: 0 <= i < colorData.Length ==> colorData[i] in palette
    ensures colorData.Length == 0 ==> palette == [] && colorData[..] == old(colorData[..])
  {
    ghost var pixels := colorData[..];
    ghost var limit := GroupLimit(maxColorGroupCount);
    var allIndices := InitIndices(colorData.Length);
    if |allIndices| == 0 {
      QuantizedEmpty(pixels, limit);
      return [];
    }
    var groups := SplitGroups(colorData, allIndices, maxColorGroupCount);
    ghost var ms := Means(pixels, groups);
    FinalGroupsPartition(pixels, limit);
    var pal := RecolorGroups(colorData, groups);
    assert colorData[..] == Quantized(pixels, limit);
    assert pal[..] == ms;
    SortByBrightness(pal);
    palette := pal[..];
    assert multiset(palette) == multiset(ms);
    PaletteCovers(pixels, maxColorGroupCount, colorData[..], palette);
  }

  /** An empty image has no groups and is left as it is. */
  lemma QuantizedEmpty(pixels: seq<Color>, maxCount: int)
    requires |pixels| == 0
    ensures FinalGroups(pixels, maxCount) == [] && Means(pixels, []) == []
    ensures Quantized(pixels, maxCount) == pixels
  {
  }

  /** A permutation of the group means holds every recoloured pixel, has at
      most the bound many entries, and at most one per pixel. */
  lemma PaletteCovers(pixels: seq<Color>, maxColorGroupCount: CInt, q: seq<Color>, palette: seq<Color>)
    requires q == Quantized(pixels, GroupLimit(maxColorGroupCount))
    requires multiset(palette) == multiset(Means(pixels, FinalGroups(pixels, GroupLimit(maxColorGroupCount))))
    ensures forall i :: 0 <= i < |q| ==> q[i] in palette
    ensures maxColorGroupCount >= 1 ==> |palette| <= maxColorGroupCount
    ensures maxColorGroupCount == 0 ==> |palette| <= 1
    ensures |palette| <= |pixels|
  {
    var limit := GroupLimit(maxColorGroupCount);
    QuantizedPixels(pixels, limit);
    SameEntries(q, Means(pixels, FinalGroups(pixels, limit)), palette);
    PaletteSize(pixels, maxColorGroupCount, palette);
  }

  /** A palette holding the group means has one entry per group: at most
      the bound, and at most one per pixel. */
  lemma PaletteSize(pixels: seq<Color>, maxColorGroupCount: CInt, palette: seq<Color>)
    requires multiset(palette) == multiset(Means(pixels, FinalGroups(pixels, GroupLimit(maxColorGroupCount))))
    ensures maxColorGroupCount >= 1 ==> |palette| <= maxColorGroupCount
    ensures maxColorGroupCount == 0 ==> |palette| <= 1
    ensures |palette| <= |pixels|
  {
    var gs := FinalGroups(pixels, GroupLimit(maxColorGroupCount));
    FinalGroupsPartition(pixels, GroupLimit(maxColorGroupCount));
    PartitionCount(gs, |pixels|);
    assert |palette| == |multiset(palette)| == |Means(pixels, gs)| == |gs|;
  }

  /** Pixels drawn from one list are drawn from any permutation of it. */
  lemma SameEntries(q: seq<Color>, ms: seq<Color>, palette: seq<Color>)
    requires forall i :: 0 <= i < |q| ==> q[i] in ms
    requires multiset(palette) == multiset(ms)
    ensures forall i :: 0 <= i < |q| ==> q[i] in palette
  {
    forall i | 0 <= i < |q| ensures q[i] in palette {
      assert q[i] in multiset(ms);
    }
  }
}
