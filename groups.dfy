/** Groups of pixel indices, and what it means for a list of groups to
    partition the pixel buffer: every index in exactly one group. */
module Groups {

  /** A colour group: indices into the pixel buffer, in insertion order. */
  type Group = seq<nat>

  /** The indices 0, 1, ..., n-1: the group every pixel starts in. */
  function Indices(n: nat): (r: seq<nat>)
    ensures |r| == n
    ensures forall i :: 0 <= i < n ==> r[i] == i
  {
    if n == 0 then [] else Indices(n - 1) + [n - 1]
  }

  /** Each index below n occurs in Indices(n) exactly once, and nothing else does. */
  lemma {:induction false} IndicesOnce(n: nat, i: int)
    ensures multiset(Indices(n))[i] == if 0 <= i < n then 1 else 0
  {
    if n > 0 {
      var last: nat := n - 1;
      var s: seq<int> := Indices(last);
      IndicesOnce(last, i);
      assert Indices(n) == s + [last];
      assert multiset(s + [last]) == multiset(s) + multiset{last};
      assert multiset(Indices(n))[i] == multiset(s)[i] + if i == last then 1 else 0;
    }
  }

  /** Every member of g indexes a buffer of n pixels. */
  ghost predicate Within(n: nat, g: Group) {
    forall j :: 0 <= j < |g| ==> g[j] < n
  }

  /** A group that may enter the work list or the terminal list: non-empty
      and inside the buffer. */
  ghost predicate ValidGroup(n: nat, g: Group) {
    |g| > 0 && Within(n, g)
  }

  ghost predicate WellFormed(n: nat, gs: seq<Group>) {
    forall k :: 0 <= k < |gs| ==> ValidGroup(n, gs[k])
  }

  /** The members of all groups, group after group. */
  function Flatten(gs: seq<Group>): seq<nat> {
    if |gs| == 0 then [] else gs[0] + Flatten(gs[1..])
  }

  /** gs partitions the indices of a buffer of n pixels: together the
      groups hold every index below n once and nothing else. */
  ghost predicate Partitions(gs: seq<Group>, n: nat) {
    multiset(Flatten(gs)) == multiset(Indices(n))
  }

  /** No index is shared by two different groups. */
  ghost predicate Disjoint(gs: seq<Group>) {
    forall k1, k2, j :: 0 <= k1 < |gs| && 0 <= k2 < |gs| && k1 != k2 && 0 <= j < |gs[k1]| ==>
      gs[k1][j] !in gs[k2]
  }

  lemma {:induction false} FlattenConcat(a: seq<Group>, b: seq<Group>)
    ensures Flatten(a + b) == Flatten(a) + Flatten(b)
  {
    if |a| == 0 {
      assert a + b == b;
    } else {
      assert (a + b)[1..] == a[1..] + b;
      FlattenConcat(a[1..], b);
    }
  }

  lemma FlattenSingle(g: Group)
    ensures Flatten([g]) == g
  {
    assert [g][1..] == [];
  }

  /** The members of gs are those of the groups before k, of group k, and of
      the groups after k. */
  lemma FlattenAround(gs: seq<Group>, k: nat)
    requires k < |gs|
    ensures multiset(Flatten(gs)) ==
      multiset(Flatten(gs[..k])) + multiset(gs[k]) + multiset(Flatten(gs[k + 1..]))
  {
    var before, after := gs[..k], gs[k + 1..];
    FlattenSplit(gs, k);
    var x, y, z := Flatten(before), gs[k], Flatten(after);
    assert multiset(x + y + z) == multiset(x) + multiset(y) + multiset(z);
  }

  lemma {:induction false} FlattenSplit(gs: seq<Group>, k: nat)
    requires k < |gs|
    ensures Flatten(gs) == Flatten(gs[..k]) + gs[k] + Flatten(gs[k + 1..])
  {
    if k == 0 {
      assert gs[..0] == [];
      assert Flatten(gs) == gs[0] + Flatten(gs[1..]);
    } else {
      var tail := gs[1..];
      FlattenSplit(tail, k - 1);
      assert tail[..k - 1] == gs[..k][1..];
      assert tail[k - 1] == gs[k];
      assert tail[k..] == gs[k + 1..];
      assert Flatten(gs[..k]) == gs[0] + Flatten(gs[..k][1..]);
      assert Flatten(gs) == gs[0] + Flatten(tail);
    }
  }

  /** Removing group k and adding its members back gives the same members. */
  lemma FlattenRemove(gs: seq<Group>, k: nat)
    requires k < |gs|
    ensures multiset(Flatten(gs)) == multiset(Flatten(gs[..k] + gs[k + 1..])) + multiset(gs[k])
  {
    FlattenAround(gs, k);
    FlattenConcat(gs[..k], gs[k + 1..]);
  }

  /** An index is a member iff some group holds it. */
  lemma {:induction false} InFlatten(gs: seq<Group>, i: nat)
    ensures i in Flatten(gs) <==> exists k :: 0 <= k < |gs| && i in gs[k]
  {
    if |gs| > 0 {
      InFlatten(gs[1..], i);
      if i in Flatten(gs[1..]) {
        var k :| 0 <= k < |gs[1..]| && i in gs[1..][k];
        assert i in gs[k + 1];
      }
      if exists k :: 0 <= k < |gs| && i in gs[k] {
        var k :| 0 <= k < |gs| && i in gs[k];
        if k > 0 {
          assert i in gs[1..][k - 1];
        }
      }
    }
  }

  /** A partition never puts one index in two groups, nor twice in one
      group. */
  lemma PartitionDisjoint(gs: seq<Group>, n: nat)
    requires Partitions(gs, n)
    ensures Disjoint(gs)
    ensures forall k, j1, j2 :: 0 <= k < |gs| && 0 <= j1 < j2 < |gs[k]| ==> gs[k][j1] != gs[k][j2]
  {
    forall k, j1, j2 | 0 <= k < |gs| && 0 <= j1 < j2 < |gs[k]|
      ensures gs[k][j1] != gs[k][j2]
    {
      if gs[k][j1] == gs[k][j2] {
        var i := gs[k][j1];
        RepeatCounts(gs[k], j1, j2);
        FlattenAround(gs, k);
        IndicesOnce(n, i);
        assert false;
      }
    }
    forall k1, k2, j | 0 <= k1 < |gs| && 0 <= k2 < |gs| && k1 != k2 && 0 <= j < |gs[k1]|
      ensures gs[k1][j] !in gs[k2]
    {
      var i := gs[k1][j];
      var lo, hi := if k1 < k2 then k1 else k2, if k1 < k2 then k2 else k1;
      FlattenAround(gs, lo);
      FlattenAround(gs[lo + 1..], hi - lo - 1);
      assert gs[lo + 1..][hi - lo - 1] == gs[hi];
      IndicesOnce(n, i);
      assert multiset(gs[k1])[i] >= 1;
      assert multiset(Flatten(gs))[i] >= multiset(gs[lo])[i] + multiset(gs[hi])[i];
      assert multiset(gs[k2])[i] == 0;
    }
  }

  /** An element found at two positions occurs at least twice. */
  lemma RepeatCounts(s: seq<nat>, j1: nat, j2: nat)
    requires j1 < j2 < |s| && s[j1] == s[j2]
    ensures multiset(s)[s[j1]] >= 2
  {
    assert s == s[..j2] + [s[j2]] + s[j2 + 1..];
    assert s[..j2][j1] == s[j1];
    assert multiset(s[..j2])[s[j1]] >= 1;
  }

  /** A partition puts every index below n in some group. */
  lemma PartitionCovers(gs: seq<Group>, n: nat, i: nat)
    requires Partitions(gs, n)
    requires i < n
    ensures exists k :: 0 <= k < |gs| && i in gs[k]
  {
    IndicesOnce(n, i);
    assert i in multiset(Flatten(gs));
    InFlatten(gs, i);
  }

  /** Non-empty groups hold at least one member each. */
  lemma {:induction false} FlattenAtLeast(n: nat, gs: seq<Group>)
    requires WellFormed(n, gs)
    ensures |Flatten(gs)| >= |gs|
  {
    if |gs| > 0 {
      assert WellFormed(n, gs[1..]) by {
        forall k | 0 <= k < |gs[1..]| ensures ValidGroup(n, gs[1..][k]) {
          assert gs[1..][k] == gs[k + 1];
        }
      }
      FlattenAtLeast(n, gs[1..]);
      assert ValidGroup(n, gs[0]);
    }
  }

  /** A partition of n indices into non-empty groups has at most n groups. */
  lemma PartitionCount(gs: seq<Group>, n: nat)
    requires WellFormed(n, gs) && Partitions(gs, n)
    ensures |gs| <= n
  {
    FlattenAtLeast(n, gs);
    assert |Flatten(gs)| == |multiset(Flatten(gs))| == |multiset(Indices(n))| == n;
  }
}
