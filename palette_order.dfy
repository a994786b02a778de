/** The final ordering of the palette (MedianCut.cpp:138-140): std::sort by
    brightness, modelled as an in-place insertion sort. Only the order of the
    keys is promised; the arrangement of entries of equal brightness is left
    open, as std::sort leaves it. */
module PaletteOrder {
  import opened Colors

  /** Entries appear by non-decreasing brightness. */
  ghost predicate SortedByBrightness(s: seq<Color>) {
    forall i, j :: 0 <= i < j < |s| ==> s[i].Brightness() <= s[j].Brightness()
  }

  /** Exchanges two neighbouring entries. */
  method SwapDown(a: array<Color>, j: int)
    requires 0 < j < a.Length
    modifies a
    ensures a[j - 1] == old(a[j]) && a[j] == old(a[j - 1])
    ensures forall m :: 0 <= m < a.Length && m != j - 1 && m != j ==> a[m] == old(a[m])
    ensures multiset(a[..]) == multiset(old(a[..]))
  {
    var t := a[j - 1];
    a[j - 1] := a[j];
    a[j] := t;
  }

  /** One insertion step: the entry at i sinks into the sorted prefix a[..i]. */
  method Insert(a: array<Color>, i: int)
    requires 0 <= i < a.Length
    requires SortedByBrightness(a[..i])
    modifies a
    ensures SortedByBrightness(a[..i + 1])
    ensures multiset(a[..]) == multiset(old(a[..]))
  {
    var j := i;
    while 0 < j && a[j].Brightness() < a[j - 1].Brightness()
      invariant 0 <= j <= i
      invariant multiset(a[..]) == multiset(old(a[..]))
      invariant forall p, q :: 0 <= p < q <= i && p != j && q != j ==>
        a[p].Brightness() <= a[q].Brightness()
      invariant forall q :: j < q <= i ==> a[j].Brightness() <= a[q].Brightness()
    {
      SwapDown(a, j);
      j := j - 1;
    }
  }

  /** Sorts the palette in place by brightness; the result is a permutation
      of the input. */
  method SortByBrightness(a: array<Color>)
    modifies a
    ensures SortedByBrightness(a[..])
    ensures multiset(a[..]) == multiset(old(a[..]))
  {
    var i := 0;
    while i < a.Length
      invariant 0 <= i <= a.Length
      invariant SortedByBrightness(a[..i])
      invariant multiset(a[..]) == multiset(old(a[..]))
    {
      Insert(a, i);
      i := i + 1;
    }
    assert a[..a.Length] == a[..];
  }
}
