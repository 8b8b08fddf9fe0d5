/** The bubble sort that orders a freshly built palette from brightest to
    dimmest (pictotile.go lines 250-286). Each helper is one loop of the
    source: CompareSwap is the body of the inner loop, Pass the inner loop,
    Passes the outer loop. */
module PaletteSort {
  import opened Colours

  /** First position the sort may move: 1 in sprite mode, which keeps the
      tile's first colour in slot 0 as transparency, and 0 otherwise. */
  function FirstSorted(spriteMode: bool): (lo: nat)
    ensures lo <= 1
    ensures spriteMode <==> lo == 1
  {
    if spriteMode then 1 else 0
  }

  /** Slots j and j+1 are exchanged exactly when the right one is brighter. */
  function CompareSwap(p: Palette, j: nat): (q: Palette)
    requires j + 1 < |p|
    ensures |q| == |p|
    ensures forall k :: 0 <= k < |p| && k != j && k != j + 1 ==> q[k] == p[k]
    ensures || (q[j] == p[j] && q[j + 1] == p[j + 1])
            || (q[j] == p[j + 1] && q[j + 1] == p[j])
    ensures !Brighter(q[j + 1], q[j])
    ensures !Brighter(p[j + 1], p[j]) ==> q == p
  {
    if Brighter(p[j + 1], p[j]) then p[j := p[j + 1]][j + 1 := p[j]] else p
  }

  /** The inner loop: compare-and-swap at j, j+1, ..., stop-1. */
  function Pass(p: Palette, j: nat, stop: int): (q: Palette)
    requires stop < |p|
    ensures |q| == |p|
    ensures forall k :: 0 <= k < |p| && (k < j || k > stop) ==> q[k] == p[k]
    decreases stop - j
  {
    if j < stop then Pass(CompareSwap(p, j), j + 1, stop) else p
  }

  /** The outer loop from pass i on; pass i stops at |p|-1-i. */
  function Passes(p: Palette, i: nat, lo: nat): (q: Palette)
    ensures |q| == |p|
    ensures forall k :: 0 <= k < lo && k < |p| ==> q[k] == p[k]
    decreases |p| - i
  {
    if i < |p| then Passes(Pass(p, lo, |p| - 1 - i), i + 1, lo) else p
  }

  /** The source's sort(): a permutation that leaves slot 0 alone in sprite mode. */
  function Sort(p: Palette, spriteMode: bool): (q: Palette)
    ensures |q| == |p|
    ensures spriteMode && |p| > 0 ==> q[0] == p[0]
  {
    Passes(p, 0, FirstSorted(spriteMode))
  }

  lemma {:induction false} PassPermutes(p: Palette, j: nat, stop: int)
    requires stop < |p|
    ensures multiset(Pass(p, j, stop)) == multiset(p)
    decreases stop - j
  {
    if j < stop {
      var q := CompareSwap(p, j);
      CompareSwapPermutes(p, j);
      assert Pass(p, j, stop) == Pass(q, j + 1, stop);
      PassPermutes(q, j + 1, stop);
    }
  }

  lemma CompareSwapPermutes(p: Palette, j: nat)
    requires j + 1 < |p|
    ensures multiset(CompareSwap(p, j)) == multiset(p)
  {
    var q := CompareSwap(p, j);
    if q != p {
      assert p == p[..j] + [p[j], p[j + 1]] + p[j + 2..];
      assert q == p[..j] + [p[j + 1], p[j]] + p[j + 2..];
    }
  }

  lemma {:induction false} PassKeepsDistinct(p: Palette, j: nat, stop: int)
    requires stop < |p|
    requires Distinct(p)
    ensures Distinct(Pass(p, j, stop))
    decreases stop - j
  {
    if j < stop {
      var q := CompareSwap(p, j);
      assert Distinct(q);
      PassKeepsDistinct(q, j + 1, stop);
    }
  }

  lemma {:induction false} PassesPermute(p: Palette, i: nat, lo: nat)
    ensures multiset(Passes(p, i, lo)) == multiset(p)
    decreases |p| - i
  {
    if i < |p| {
      var q := Pass(p, lo, |p| - 1 - i);
      PassPermutes(p, lo, |p| - 1 - i);
      PassesPermute(q, i + 1, lo);
      assert Passes(p, i, lo) == Passes(q, i + 1, lo);
    }
  }

  lemma {:induction false} PassesKeepDistinct(p: Palette, i: nat, lo: nat)
    requires Distinct(p)
    ensures Distinct(Passes(p, i, lo))
    decreases |p| - i
  {
    if i < |p| {
      var q := Pass(p, lo, |p| - 1 - i);
      PassKeepsDistinct(p, lo, |p| - 1 - i);
      PassesKeepDistinct(q, i + 1, lo);
    }
  }

  /** The sorted palette holds the same colours, each as often, as the input;
      so a palette of distinct colours stays one. */
  lemma SortPermutes(p: Palette, spriteMode: bool)
    ensures multiset(Sort(p, spriteMode)) == multiset(p)
    ensures Distinct(p) ==> Distinct(Sort(p, spriteMode))
  {
    PassesPermute(p, 0, FirstSorted(spriteMode));
    if Distinct(p) {
      PassesKeepDistinct(p, 0, FirstSorted(spriteMode));
    }
  }

  /** From position lo on, no colour is brighter than one before it. */
  predicate SortedFrom(p: Palette, lo: nat) {
    forall a, b :: lo <= a < b < |p| ==> !Brighter(p[b], p[a])
  }

  /** Every colour at or after mid is at most as bright as every colour in [lo, mid). */
  predicate Partitioned(p: Palette, lo: nat, mid: int) {
    forall a, b :: lo <= a < mid <= b < |p| ==> !Brighter(p[b], p[a])
  }

  function Max(x: int, y: int): int {
    if x < y then y else x
  }

  /** A pass started with the dimmest colour of [lo, j] at j leaves the dimmest
      colour of [lo, stop] at stop. */
  lemma {:induction false} PassSinksDimmest(p: Palette, lo: nat, j: nat, stop: int)
    requires lo <= j <= stop < |p|
    requires forall k :: lo <= k <= j ==> !Brighter(p[j], p[k])
    ensures forall k :: lo <= k <= stop ==> !Brighter(Pass(p, j, stop)[stop], Pass(p, j, stop)[k])
    decreases stop - j
  {
    if j < stop {
      var q := CompareSwap(p, j);
      forall k | lo <= k <= j + 1
        ensures !Brighter(q[j + 1], q[k])
      {
        if k < j {
          NotBrighterIsTotalPreorder(q[j + 1], p[j], p[k]);
        }
      }
      PassSinksDimmest(q, lo, j + 1, stop);
    }
  }

  /** A pass only permutes [j, stop], so a colour no brighter than all of that
      range stays no brighter than all of it. */
  lemma {:induction false} PassKeepsLowerBound(p: Palette, j: nat, stop: int, v: Colour)
    requires stop < |p|
    requires forall k :: j <= k <= stop ==> !Brighter(v, p[k])
    ensures forall k :: j <= k <= stop ==> !Brighter(v, Pass(p, j, stop)[k])
    decreases stop - j
  {
    if j < stop {
      var q := CompareSwap(p, j);
      assert q[j] == p[j] || q[j] == p[j + 1];
      assert forall k :: j + 1 <= k <= stop ==> !Brighter(v, q[k]);
      PassKeepsLowerBound(q, j + 1, stop, v);
    }
  }

  /** The outer-loop invariant: after i passes the last i positions (from lo on)
      are sorted and no brighter than anything before them. */
  lemma {:induction false} PassesSort(p: Palette, i: nat, lo: nat)
    requires i <= |p|
    requires SortedFrom(p, Max(lo, |p| - i))
    requires Partitioned(p, lo, |p| - i)
    ensures SortedFrom(Passes(p, i, lo), lo)
    decreases |p| - i
  {
    if i < |p| {
      var e := |p| - i;
      var q := Pass(p, lo, e - 1);
      if lo <= e - 1 {
        PassExtendsSorted(p, lo, e);
        assert Max(lo, e - 1) == e - 1;
      } else {
        assert q == p && Max(lo, e - 1) == lo == Max(lo, e);
      }
      PassesSort(q, i + 1, lo);
      assert Passes(p, i, lo) == Passes(q, i + 1, lo);
    }
  }

  /** One pass over [lo, e-1] grows the sorted, partitioned tail by one slot. */
  lemma PassExtendsSorted(p: Palette, lo: nat, e: nat)
    requires lo < e <= |p|
    requires SortedFrom(p, e)
    requires Partitioned(p, lo, e)
    ensures SortedFrom(Pass(p, lo, e - 1), e - 1)
    ensures Partitioned(Pass(p, lo, e - 1), lo, e - 1)
  {
    var q := Pass(p, lo, e - 1);
    PassSinksDimmest(p, lo, lo, e - 1);
    forall b | e <= b < |p|
      ensures forall k :: lo <= k <= e - 1 ==> !Brighter(p[b], q[k])
    {
      PassKeepsLowerBound(p, lo, e - 1, p[b]);
    }
  }

  /** From FirstSorted on, the sorted palette runs from brightest to dimmest. */
  lemma SortOrders(p: Palette, spriteMode: bool)
    ensures SortedFrom(Sort(p, spriteMode), FirstSorted(spriteMode))
  {
    PassesSort(p, 0, FirstSorted(spriteMode));
  }

  // ---------------------------------------------------------------------------
  // Stability: colours with equal keys keep their relative order.

  /** The colours of p whose key equals c's, in order. */
  function Tied(p: Palette, c: Colour): Palette
  {
    if |p| == 0 then []
    else (if SameKey(p[0], c) then [p[0]] else []) + Tied(p[1..], c)
  }

  lemma {:induction false} TiedAppend(a: Palette, b: Palette, c: Colour)
    ensures Tied(a + b, c) == Tied(a, c) + Tied(b, c)
  {
    if |a| == 0 {
      assert a + b == b;
    } else {
      assert (a + b)[1..] == a[1..] + b;
      TiedAppend(a[1..], b, c);
    }
  }

  /** A swap happens only between colours of different keys, so no tie class
      changes order. */
  lemma CompareSwapKeepsTies(p: Palette, j: nat, c: Colour)
    requires j + 1 < |p|
    ensures Tied(CompareSwap(p, j), c) == Tied(p, c)
  {
    var q := CompareSwap(p, j);
    if q != p {
      assert p == p[..j] + [p[j], p[j + 1]] + p[j + 2..];
      assert q == p[..j] + [p[j + 1], p[j]] + p[j + 2..];
      TiedAppend(p[..j] + [p[j], p[j + 1]], p[j + 2..], c);
      TiedAppend(p[..j], [p[j], p[j + 1]], c);
      TiedAppend(p[..j] + [p[j + 1], p[j]], p[j + 2..], c);
      TiedAppend(p[..j], [p[j + 1], p[j]], c);
      TiedAppend([p[j]], [p[j + 1]], c);
      TiedAppend([p[j + 1]], [p[j]], c);
      assert !SameKey(p[j], p[j + 1]);
    }
  }

  lemma {:induction false} PassKeepsTies(p: Palette, j: nat, stop: int, c: Colour)
    requires stop < |p|
    ensures Tied(Pass(p, j, stop), c) == Tied(p, c)
    decreases stop - j
  {
    if j < stop {
      CompareSwapKeepsTies(p, j, c);
      PassKeepsTies(CompareSwap(p, j), j + 1, stop, c);
    }
  }

  lemma {:induction false} PassesKeepTies(p: Palette, i: nat, lo: nat, c: Colour)
    ensures Tied(Passes(p, i, lo), c) == Tied(p, c)
    decreases |p| - i
  {
    if i < |p| {
      var q := Pass(p, lo, |p| - 1 - i);
      PassKeepsTies(p, lo, |p| - 1 - i, c);
      PassesKeepTies(q, i + 1, lo, c);
      assert Passes(p, i, lo) == Passes(q, i + 1, lo);
    }
  }

  /** The sort is stable: for every key, the colours carrying it appear in the
      same order before and after. */
  lemma SortIsStable(p: Palette, spriteMode: bool, c: Colour)
    ensures Tied(Sort(p, spriteMode), c) == Tied(p, c)
  {
    PassesKeepTies(p, 0, FirstSorted(spriteMode), c);
  }
}
