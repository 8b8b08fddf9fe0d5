/** The run-wide list of palettes (the global `palettes`, pictotile.go line 44),
    the subset test `compare` (lines 289-309) and the lookup-or-append step
    of Encode (lines 195-216). The registry is threaded through as a value. */
module PaletteRegistry {
  import opened Colours
  import opened PaletteSort

  /** Registered palettes in insertion order. */
  type Registry = seq<Palette>

  /** The source's compare(a, b): every colour of b occurs somewhere in a. This
      is a subset test, not equality, and it holds for an empty b. */
  function Covers(a: Palette, b: Palette): (r: bool)
    ensures r <==> forall c :: c in b ==> c in a
  {
    |b| == 0 || (Contains(a, b[0]) && Covers(a, b[1..]))
  }

  /** The scan of lines 198-208 from registry entry i on: the first entry that
      covers pal, if any. */
  function FindCovering(reg: Registry, pal: Palette, i: nat): (found: Option<nat>)
    requires i <= |reg|
    ensures found.Some? ==> i <= found.value < |reg| && Covers(reg[found.value], pal)
    ensures found.Some? ==> forall k :: i <= k < found.value ==> !Covers(reg[k], pal)
    ensures found.None? ==> forall k :: i <= k < |reg| ==> !Covers(reg[k], pal)
    decreases |reg| - i
  {
    if i == |reg| then None
    else if Covers(reg[i], pal) then Some(i)
    else FindCovering(reg, pal, i + 1)
  }

  /** The registry after resolving a tile's palette, and the position in it of
      the palette the tile is indexed against. */
  datatype Resolution = Resolution(registry: Registry, index: nat)

  /** Lines 195-216: reuse the first registered palette covering pal, unchanged
      and in its registered order; otherwise sort pal and append it. */
  function Resolve(reg: Registry, pal: Palette, spriteMode: bool): (res: Resolution)
    ensures |reg| <= |res.registry| <= |reg| + 1
    ensures res.registry[..|reg|] == reg
    ensures res.index < |res.registry|
    ensures Covers(res.registry[res.index], pal)
    ensures forall k :: 0 <= k < res.index ==> !Covers(res.registry[k], pal)
    ensures |res.registry| == |reg| <==> exists k :: 0 <= k < |reg| && Covers(reg[k], pal)
    ensures |res.registry| != |reg| ==> res.registry == reg + [Sort(pal, spriteMode)]
  {
    match FindCovering(reg, pal, 0)
    case Some(i) => Resolution(reg, i)
    case None =>
      SortPermutes(pal, spriteMode);
      assert forall c :: c in pal ==> c in multiset(pal);
      Resolution(reg + [Sort(pal, spriteMode)], |reg|)
  }

  /** Covers depends only on the colours of its second argument, so it cannot
      tell a palette from its sorted form. */
  lemma CoversSorted(a: Palette, pal: Palette, spriteMode: bool)
    ensures Covers(a, Sort(pal, spriteMode)) <==> Covers(a, pal)
  {
    SortPermutes(pal, spriteMode);
    var q := Sort(pal, spriteMode);
    assert forall c :: c in q <==> c in multiset(q);
    assert forall c :: c in pal <==> c in multiset(pal);
  }

  /** No registered palette's colours are all found in an earlier one. */
  predicate NoCoveredLater(reg: Registry) {
    forall i, j :: 0 <= i < j < |reg| ==> !Covers(reg[i], reg[j])
  }

  /** What every palette registered by the encoder looks like: one to four
      distinct colours, sorted from the first sortable slot on. */
  predicate WellFormedEntry(p: Palette, spriteMode: bool) {
    && 0 < |p| <= 4
    && Distinct(p)
    && SortedFrom(p, FirstSorted(spriteMode))
  }

  predicate Invariant(reg: Registry, spriteMode: bool) {
    && NoCoveredLater(reg)
    && forall i :: 0 <= i < |reg| ==> WellFormedEntry(reg[i], spriteMode)
  }

  /** Resolving a palette of one to four distinct colours keeps the registry
      invariant: a palette is appended only when no earlier one covers it, and
      then in sorted form. */
  lemma ResolveKeepsInvariant(reg: Registry, pal: Palette, spriteMode: bool)
    requires Invariant(reg, spriteMode)
    requires 0 < |pal| <= 4 && Distinct(pal)
    ensures Invariant(Resolve(reg, pal, spriteMode).registry, spriteMode)
  {
    var res := Resolve(reg, pal, spriteMode);
    if |res.registry| != |reg| {
      var q := Sort(pal, spriteMode);
      SortPermutes(pal, spriteMode);
      SortOrders(pal, spriteMode);
      forall i | 0 <= i < |reg|
        ensures !Covers(reg[i], q)
      {
        CoversSorted(reg[i], pal, spriteMode);
      }
      assert res.registry == reg + [q];
    }
  }

  /** Resolving the same colours a second time finds the palette the first
      resolution settled on and leaves the registry as it is. */
  lemma ResolveIdempotent(reg: Registry, pal: Palette, spriteMode: bool)
    ensures var first := Resolve(reg, pal, spriteMode);
            Resolve(first.registry, pal, spriteMode) == first
  {
    var first := Resolve(reg, pal, spriteMode);
    var second := Resolve(first.registry, pal, spriteMode);
    assert second.registry == first.registry;
  }

  /** Two palettes with the same colours resolve to the same registry entry:
      after resolving one, resolving the other reuses that entry. */
  lemma SameColoursSameEntry(reg: Registry, a: Palette, b: Palette, spriteMode: bool)
    requires forall c :: c in a <==> c in b
    ensures var first := Resolve(reg, a, spriteMode);
            Resolve(first.registry, b, spriteMode) == first
  {
    var first := Resolve(reg, a, spriteMode);
    var second := Resolve(first.registry, b, spriteMode);
    assert forall p :: Covers(p, a) <==> Covers(p, b);
    assert second.registry == first.registry;
  }

  /** The reuse lasts: however many entries are registered after palette a is
      resolved, palette b with the same colours, in any order, still resolves
      to a's entry and registers nothing. */
  lemma SameColoursSameEntryLater(reg: Registry, a: Palette, b: Palette, more: Registry, spriteMode: bool)
    requires forall c :: c in a <==> c in b
    ensures var first := Resolve(reg, a, spriteMode);
            Resolve(first.registry + more, b, spriteMode) == Resolution(first.registry + more, first.index)
  {
    var first := Resolve(reg, a, spriteMode);
    var later := first.registry + more;
    assert forall p :: Covers(p, a) <==> Covers(p, b);
    assert later[first.index] == first.registry[first.index];
    assert forall k :: 0 <= k < first.index ==> later[k] == first.registry[k];
  }
}
