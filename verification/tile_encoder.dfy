/** The per-tile encoder (Encode, pictotile.go lines 150-246) as a pure map
    from (registry, tile) to (registry', 16 bytes). */
module TileEncoder {
  import opened Colours
  import opened Extraction
  import opened PaletteRegistry
  import opened Bitplanes

  /** An 8x8 tile as the encoder sees it: plain colours, or an already paletted
      image that carries its own palette (the `*image.Paletted` case). For the
      latter `pixels` are the colours its At() returns, i.e. palette entries. */
  datatype Tile =
    | Raw(pixels: Grid)
    | Indexed(palette: Palette, pixels: Grid)

  predicate IsTileGrid(g: Grid) {
    |g| == 8 && forall y :: 0 <= y < 8 ==> |g[y]| == 8
  }

  /** A paletted tile's pixels are entries of its palette, which is non-empty
      (with an empty palette At() yields nil and the lookup fails). */
  predicate WellFormed(t: Tile) {
    && IsTileGrid(t.pixels)
    && (t.Indexed? ==>
          && |t.palette| > 0
          && forall y, x :: 0 <= y < 8 && 0 <= x < 8 ==> t.pixels[y][x] in t.palette)
  }

  /** The `byte(...)` conversion at line 229: the low eight bits. An encoder
      palette has at most four slots, so the indices it produces convert
      unchanged. */
  function ByteOf(n: nat): (b: Byte)
    ensures n < 4 ==> b as nat == n
  {
    assert n < 4 ==> n == 0 || n == 1 || n == 2 || n == 3;
    (n % 256) as Byte
  }

  /** Lines 218-232: one index per pixel in row-major order, each the slot
      Palette.Index picks for the pixel. */
  function Indices(g: Grid, p: Palette): (raw: seq<Byte>)
    requires IsTileGrid(g) && 0 < |p|
    ensures |raw| == 64
    ensures |p| <= 4 ==> forall k :: 0 <= k < 64 ==> FirstNearest(p, g[k / 8][k % 8], raw[k] as nat)
  {
    seq(64, k requires 0 <= k < 64 => ByteOf(Index(p, g[k / 8][k % 8])))
  }

  /** The registry after this tile, and the palette its pixels are indexed in. */
  datatype Resolved = Resolved(registry: Registry, palette: Palette)

  /** Lines 156-216: a paletted tile uses its own first four palette entries,
      unsorted, and leaves the registry alone; any other tile resolves its
      extracted colours against the registry. */
  function ResolveTile(reg: Registry, t: Tile, spriteMode: bool): (r: Resolved)
    requires WellFormed(t)
    ensures 0 < |r.palette|
    ensures |reg| <= |r.registry| <= |reg| + 1 && r.registry[..|reg|] == reg
    ensures t.Indexed? ==> r.registry == reg
    ensures t.Indexed? ==> |r.palette| == if |t.palette| < 4 then |t.palette| else 4
    ensures t.Indexed? ==> r.palette == t.palette[..|r.palette|]
    ensures t.Raw? ==> Covers(r.palette, Extract(t.pixels))
    ensures t.Raw? ==> r.palette in r.registry
  {
    match t
    case Indexed(palette, _) => Resolved(reg, Take(palette, 4))
    case Raw(g) =>
      ExtractProperties(g);
      assert g[0][0] in Flatten(g);
      var pal := Extract(g);
      var res := Resolve(reg, pal, spriteMode);
      assert Covers(res.registry[res.index], pal);
      assert pal[0] in res.registry[res.index];
      Resolved(res.registry, res.registry[res.index])
  }

  /** The result of encoding one tile. */
  datatype Encoded = Encoded(registry: Registry, data: seq<Byte>)

  /** The source's Encode with its global registry made explicit. */
  function Encode(reg: Registry, t: Tile, spriteMode: bool): (e: Encoded)
    requires WellFormed(t)
    ensures |e.data| == 16
    ensures |reg| <= |e.registry| <= |reg| + 1 && e.registry[..|reg|] == reg
    ensures t.Indexed? ==> e.registry == reg
  {
    var r := ResolveTile(reg, t, spriteMode);
    Encoded(r.registry, Pack(Indices(t.pixels, r.palette)))
  }

  // ---------------------------------------------------------------------------
  // Properties

  /** The palette a tile is indexed in has at most four slots, given that the
      registry holds only what the encoder registers. */
  lemma ResolvedPaletteSize(reg: Registry, t: Tile, spriteMode: bool)
    requires WellFormed(t) && Invariant(reg, spriteMode)
    ensures |ResolveTile(reg, t, spriteMode).palette| <= 4
  {
    if t.Raw? {
      ExtractProperties(t.pixels);
      assert t.pixels[0][0] in Flatten(t.pixels);
      ResolveKeepsInvariant(reg, Extract(t.pixels), spriteMode);
    }
  }

  /** Reading row y, column x back out of the two bitplanes gives the slot of
      the resolved palette nearest to the pixel's colour, the first such slot
      when several are equally near. */
  lemma EncodeIndexes(reg: Registry, t: Tile, spriteMode: bool, y: nat, x: nat)
    requires WellFormed(t) && Invariant(reg, spriteMode) && y < 8 && x < 8
    ensures var p := ResolveTile(reg, t, spriteMode).palette;
            var i := Unpack(Encode(reg, t, spriteMode).data)[8 * y + x];
            && |p| <= 4
            && FirstNearest(p, t.pixels[y][x], i as nat)
  {
    ResolvedPaletteSize(reg, t, spriteMode);
    var p := ResolveTile(reg, t, spriteMode).palette;
    var raw := Indices(t.pixels, p);
    assert Encode(reg, t, spriteMode).data == Pack(raw);
    SmallIndices(raw, |p|);
    UnpackPack(raw);
    var k := 8 * y + x;
    assert k / 8 == y && k % 8 == x;
    assert Unpack(Pack(raw))[k] == raw[k];
  }

  /** Indices below a palette size of at most four are below 4 as bytes. */
  lemma SmallIndices(raw: seq<Byte>, n: nat)
    requires n <= 4 && forall k :: 0 <= k < |raw| ==> raw[k] as nat < n
    ensures forall k :: 0 <= k < |raw| ==> raw[k] < 4
  {
    forall k | 0 <= k < |raw|
      ensures raw[k] < 4
    {
      var v := raw[k];
      assert v as nat < 4;
    }
  }

  /** A plain tile with at most four distinct colours has all of them in its
      resolved palette, so Palette.Index finds each at distance 0. */
  lemma FewColoursAllIndexed(reg: Registry, g: Grid, spriteMode: bool, y: nat, x: nat)
    requires IsTileGrid(g) && y < 8 && x < 8
    requires |Dedup(Flatten(g))| <= 4
    ensures g[y][x] in ResolveTile(reg, Raw(g), spriteMode).palette
  {
    ExtractProperties(g);
  }

  /** Encoding the same tile again right after gives the same bytes and leaves
      the registry unchanged. */
  lemma EncodeIdempotent(reg: Registry, t: Tile, spriteMode: bool)
    requires WellFormed(t)
    ensures var first := Encode(reg, t, spriteMode);
            Encode(first.registry, t, spriteMode) == first
  {
    if t.Raw? {
      ResolveIdempotent(reg, Extract(t.pixels), spriteMode);
    }
  }

  /** Two plain tiles whose extracted colours are the same set, encoded one
      after the other, are indexed against the same palette and the second
      adds nothing to the registry; so any colour of both maps to the same
      index in both. */
  lemma SameColoursSharePalette(reg: Registry, a: Grid, b: Grid, spriteMode: bool)
    requires IsTileGrid(a) && IsTileGrid(b)
    requires forall c :: c in Extract(a) <==> c in Extract(b)
    ensures var ra := ResolveTile(reg, Raw(a), spriteMode);
            var rb := ResolveTile(ra.registry, Raw(b), spriteMode);
            rb == ra
  {
    SameColoursSameEntry(reg, Extract(a), Extract(b), spriteMode);
  }

  /** The sharing lasts for the rest of the run: a plain tile with the same
      extracted colours as an earlier one, encoded against any registry that
      extends the one the earlier tile left, is indexed against the earlier
      tile's palette and adds no entry. */
  lemma SameColoursShareLaterPalette(reg: Registry, a: Grid, b: Grid, more: Registry, spriteMode: bool)
    requires IsTileGrid(a) && IsTileGrid(b)
    requires forall c :: c in Extract(a) <==> c in Extract(b)
    ensures var ra := ResolveTile(reg, Raw(a), spriteMode);
            ResolveTile(ra.registry + more, Raw(b), spriteMode) == Resolved(ra.registry + more, ra.palette)
  {
    var first := Resolve(reg, Extract(a), spriteMode);
    SameColoursSameEntryLater(reg, Extract(a), Extract(b), more, spriteMode);
    assert (first.registry + more)[first.index] == first.registry[first.index];
  }

  /** The same, stated for any registry that starts with the one the earlier
      tile left. */
  lemma SameColoursShareExtendedPalette(reg: Registry, a: Grid, b: Grid, now: Registry, spriteMode: bool)
    requires IsTileGrid(a) && IsTileGrid(b)
    requires forall c :: c in Extract(a) <==> c in Extract(b)
    requires var left := ResolveTile(reg, Raw(a), spriteMode).registry;
             |left| <= |now| && now[..|left|] == left
    ensures ResolveTile(now, Raw(b), spriteMode) == Resolved(now, ResolveTile(reg, Raw(a), spriteMode).palette)
  {
    var left := ResolveTile(reg, Raw(a), spriteMode).registry;
    PrefixSplit(now, left);
    SameColoursShareLaterPalette(reg, a, b, now[|left|..], spriteMode);
  }

  /** A registry that starts with another is that one followed by the rest. */
  lemma PrefixSplit(now: Registry, left: Registry)
    requires |left| <= |now| && now[..|left|] == left
    ensures now == left + now[|left|..]
  {
    assert now == now[..|left|] + now[|left|..];
  }

  /** Two plain tiles with the same set of at most four colours have the same
      extracted colours, so the lemmas above apply to them. */
  lemma FewSameColoursSameExtract(a: Grid, b: Grid)
    requires |Dedup(Flatten(a))| <= 4 && |Dedup(Flatten(b))| <= 4
    requires forall c :: c in Flatten(a) <==> c in Flatten(b)
    ensures forall c :: c in Extract(a) <==> c in Extract(b)
  {
    ExtractProperties(a);
    ExtractProperties(b);
  }

  /** A paletted tile does not read or change the registry: its bytes are the
      same whatever the registry holds. */
  lemma IndexedIgnoresRegistry(reg1: Registry, reg2: Registry, t: Tile, spriteMode: bool)
    requires WellFormed(t) && t.Indexed?
    ensures Encode(reg1, t, spriteMode).data == Encode(reg2, t, spriteMode).data
    ensures Encode(reg1, t, spriteMode).registry == reg1
  {
  }

  /** Encoding keeps the registry invariant: entries of one to four distinct
      colours, sorted, none covered by an earlier one. */
  lemma EncodeKeepsInvariant(reg: Registry, t: Tile, spriteMode: bool)
    requires WellFormed(t) && Invariant(reg, spriteMode)
    ensures Invariant(Encode(reg, t, spriteMode).registry, spriteMode)
  {
    if t.Raw? {
      ExtractProperties(t.pixels);
      assert t.pixels[0][0] in Flatten(t.pixels);
      ResolveKeepsInvariant(reg, Extract(t.pixels), spriteMode);
    }
  }
}
