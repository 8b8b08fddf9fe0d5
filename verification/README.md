# pictotile in Dafny

pictotile converts an image into Game Boy tile data. It cuts the image into
8x8 tiles, sprite by sprite. It gives each tile a palette of at most four
colours and writes each pixel's 2-bit palette index as two bitplane bytes per
tile row, so one tile is 16 bytes. Plain tiles share palettes through a
run-wide registry: a tile whose colours are all found in an already
registered palette reuses it, slot order included. Otherwise the tile's
colours are sorted from brightest to dimmest and registered. A tile cut from
an already paletted image uses that image's first four palette entries as
they are.

The model follows `pictotile.go` and has six modules:

- `Colours` (colours.dfy) covers colour values with 16-bit channels, the
  brightness order of the sort, and membership and first-slot lookup.
- `PaletteSort` (palette_sort.dfy) is the bubble sort `sort`, written as one
  recursive function per loop. It proves that the sort permutes the palette,
  orders it from the first sortable slot on, and is stable.
- `Extraction` (extraction.dfy) is the colour scan of `Encode` exactly as
  written, including the `break` that only leaves the current row. It proves
  that the scan equals a reference definition: the first four distinct
  colours in row-major order.
- `PaletteRegistry` (registry.dfy) holds the global `palettes` as a value,
  the subset test `compare`, and lookup-or-append. It proves the invariant
  that appending keeps.
- `Bitplanes` (bitplanes.dfy) is the two-bitplane packing. It proves both
  round trips with a decoder.
- `TileEncoder` (tile_encoder.dfy) is `Encode` for one tile, as a function
  from (registry, tile) to (registry, 16 bytes).
- `Driver` (driver.dfy) is the pure part of `main`: flag defaulting, the
  order in which tiles are cut, and the run that threads the registry from
  tile to tile.

The global `palettes` and the global `spriteMode` become explicit
parameters. `color.Palette.Index` (line 229) is modelled as Go's image/color
package defines it. It returns the first slot at the smallest distance, where
the distance sums, over R, G, B and A, the squared difference shifted right
by 2 (divided by four, rounded down), and it returns at once on distance 0.
Dividing by four makes the distance 0 whenever every channel differs by at
most 1. So a colour present in the palette can be
indexed by an earlier slot holding a near colour (`Colours.NearHitWins`).

What the code does, where the program's own comments say otherwise:

- The comment at line 10 says additional colours are set to black and an
  error printed. The code prints nothing. It cuts the palette to four
  colours (lines 187-189), and a pixel whose colour was cut gets the slot
  `Palette.Index` picks for it (line 229).
- The comment at lines 193-194 speaks of a palette with the same colours as
  a previous one. `compare` (lines 289-309) is a subset test, so a tile
  reuses the first registered palette that contains all of its colours.

Palettes are not padded: a tile with two colours extracts a two-entry
palette, and registers it at that size when no registered palette covers
it. The sort runs over the palette's actual length.

## Model

| member | source | states |
|---|---|---|
| Colours.Contains | pictotile.go:173-178 | the early-exit scan of a palette finds a colour exactly when the colour occurs in it |
| Colours.SameKeyIffSameRgb | pictotile.go:272-282 | two colours tie under the sort's three comparisons exactly when their R, G and B agree; alpha is ignored |
| Colours.NotBrighterIsTotalPreorder | pictotile.go:272-282 | "not brighter" is reflexive, transitive and total, so the compare-and-swap order admits a sorted result |
| Colours.SqDiff | pictotile.go:229 | the library's sqDiff of two 16-bit channel values is at most 0x3FFF_8000, and is 0 exactly when the values are at most 1 apart |
| Colours.Distance | pictotile.go:229 | the distance Palette.Index minimises is below 2^32 - 1, so its uint32 sum never wraps, and it is 0 exactly when every channel differs by at most 1 |
| Colours.SquareIsProduct | pictotile.go:229 | the square in the distance, written by its recurrence, is the product d * d that sqDiff computes |
| Colours.Index | pictotile.go:229 | Palette.Index returns a slot at the smallest distance from the colour, and the first such slot |
| Colours.IndexScan | pictotile.go:229 | the library's loop, resumed at slot i with the best slot and distance so far, ends at the first slot of the whole palette at the smallest distance |
| Colours.FirstNearestUnique | pictotile.go:229 | at most one slot is the first at the smallest distance, so the search's result is determined |
| Colours.IndexOfPresent | pictotile.go:229 | for a colour the palette holds, the slot found is at distance 0, no later than the first slot holding the colour, and equal to it when no earlier slot holds a near colour |
| Colours.NearHitWins | pictotile.go:229 | with slots (0,0,0,max) and (1,0,0,max), the colour of slot 1 is indexed as slot 0 |
| PaletteSort.Pass | pictotile.go:260-283 | the inner loop from j to stop keeps the palette's length and changes no slot before j or after stop |
| PaletteSort.Passes | pictotile.go:259-284 | the outer loop keeps the palette's length and never changes a slot below its first sortable one (slot 0 in sprite mode) |
| PaletteSort.CompareSwap | pictotile.go:261-282 | the inner-loop body touches only slots j and j+1, either keeps or exchanges them, leaves them not out of order, and changes nothing when they already are in order |
| PaletteSort.Sort | pictotile.go:250-286 | the sorted palette has the input's length, and in sprite mode slot 0 keeps the colour it had |
| PaletteSort.SortPermutes | pictotile.go:250-286 | the sorted palette is a permutation of the input (equal multisets), so distinct colours stay distinct |
| PaletteSort.PassExtendsSorted | pictotile.go:260-283 | one inner pass over [lo, e-1] moves the dimmest colour of that range to e-1, growing the sorted and partitioned tail by one |
| PaletteSort.SortOrders | pictotile.go:254-284 | from slot 1 in sprite mode (slot 0 otherwise) no colour is brighter than one before it |
| PaletteSort.SortIsStable | pictotile.go:272-282 | colours with equal sort keys keep their relative order, since a swap happens only on a strict comparison |
| Extraction.ScanRow | pictotile.go:170-185 | the inner loop only appends, appends only colours from the rest of the row, adds no duplicate, and ends with at most four entries, or at most one more than it started with when it started with four or more |
| Extraction.ScanRows | pictotile.go:169-186 | the outer loop only appends, appends only colours of the remaining rows, and adds no duplicate |
| Extraction.Extract | pictotile.go:169-189 | the tile's palette has at most four colours, no two alike, each a pixel of the tile |
| Extraction.ScanRowTracks | pictotile.go:170-185 | the inner loop, including its `break` at four colours, keeps the palette equal to the first appearances of the pixels scanned so far, or agreeing with their first four once full |
| Extraction.ExtractIsFirstColours | pictotile.go:169-189 | the scan with its row-local `break`, followed by the cut to four, yields exactly the first four distinct colours of the tile in row-major order, or all of them when there are fewer |
| Extraction.ExtractProperties | pictotile.go:169-189 | the extracted palette has distinct colours taken from the tile, min(4, n) of them for n distinct colours, every tile colour when n <= 4, and at least one colour |
| PaletteRegistry.Covers | pictotile.go:289-309 | compare(a, b) holds exactly when every colour of b occurs in a, which includes an empty b |
| PaletteRegistry.FindCovering | pictotile.go:198-208 | the registry scan returns the first entry that covers the tile's colours, or reports that none does |
| PaletteRegistry.Resolve | pictotile.go:195-216 | the tile gets the first registered palette covering its colours and the registry is unchanged; if none covers them, the sorted colours are appended and used; the registry grows exactly when no entry covered them |
| PaletteRegistry.CoversSorted | pictotile.go:201-212 | a registered palette covers the sorted colours exactly when it covers the unsorted ones, so sorting before registering does not change what matches later |
| PaletteRegistry.ResolveKeepsInvariant | pictotile.go:195-216 | after resolving 1-4 distinct colours, every entry still has 1-4 distinct colours sorted from the first sortable slot, and no entry is covered by an earlier one |
| PaletteRegistry.ResolveIdempotent | pictotile.go:195-216 | resolving the same colours again picks the same entry and leaves the registry as the first resolution left it |
| PaletteRegistry.SameColoursSameEntry | pictotile.go:193-216 | palettes with the same colours in any order resolve to the same entry, and the second resolution registers nothing |
| PaletteRegistry.SameColoursSameEntryLater | pictotile.go:193-216 | the same holds when entries were registered in between: the second resolution picks the first one's entry and registers nothing |
| TileEncoder.ByteOf | pictotile.go:229 | the byte conversion keeps a palette index below 4 unchanged |
| TileEncoder.Indices | pictotile.go:219-232 | 64 indices in row-major order; when the palette has at most 4 slots, each is the first slot nearest to its pixel's colour |
| TileEncoder.ResolveTile | pictotile.go:156-216 | a paletted tile uses the first min(4, n) entries of its own palette and leaves the registry alone; a plain tile gets a registered palette covering its extracted colours; the registry only ever grows by at most one entry at the end |
| TileEncoder.Encode | pictotile.go:150-246 | one tile gives 16 bytes and grows the registry by at most one entry at the end, and by none for a paletted tile |
| TileEncoder.ResolvedPaletteSize | pictotile.go:158-216 | the palette a tile is indexed in never has more than four slots |
| TileEncoder.EncodeIndexes | pictotile.go:219-244 | decoding the 16 bytes at row y, column x gives the first slot of the tile's palette nearest to the pixel's colour, in a palette of at most four slots |
| TileEncoder.FewColoursAllIndexed | pictotile.go:169-229 | in a plain tile of at most four distinct colours every pixel's colour is in its palette, so Palette.Index finds it at distance 0 |
| TileEncoder.EncodeIdempotent | pictotile.go:195-246 | encoding a tile twice in a row gives the same bytes and registers nothing the second time |
| TileEncoder.SameColoursSharePalette | pictotile.go:193-216 | a plain tile with the same extracted colours as the tile just encoded, in any order, is indexed against the same palette and adds no entry |
| TileEncoder.SameColoursShareLaterPalette | pictotile.go:193-216 | a plain tile with the same extracted colours as an earlier one, encoded against that tile's registry followed by any further entries, gets the earlier tile's palette and adds no entry |
| TileEncoder.SameColoursShareExtendedPalette | pictotile.go:193-216 | the same for any registry that starts with the registry the earlier tile left |
| TileEncoder.FewSameColoursSameExtract | pictotile.go:169-189 | two tiles of at most four distinct colours with the same set of colours have the same extracted colours |
| TileEncoder.IndexedIgnoresRegistry | pictotile.go:158-195 | a paletted tile's bytes do not depend on the registry, and encoding it leaves the registry unchanged |
| TileEncoder.EncodeKeepsInvariant | pictotile.go:195-216 | encoding any tile keeps the registry invariant of ResolveKeepsInvariant |
| Bitplanes.PlaneBit | pictotile.go:240-242 | the masked and shifted index is bit 0 of the index for the first plane and bit 1 for the second |
| Bitplanes.PlaneByte | pictotile.go:237-243 | after the inner loop has OR-ed in columns 0 to k-1 of one plane, bit 7-n of the byte is column n's bit for each of them and the bits for columns k to 7 are still 0 |
| Bitplanes.Pack | pictotile.go:235-245 | the packed tile is 16 bytes; its bits are stated by PackBits |
| Bitplanes.PackBits | pictotile.go:235-244 | in the output, bit 7-n of byte 2i is the low bit of pixel (i, n), and the same bit of byte 2i+1 is its high bit |
| Bitplanes.UnpackPack | pictotile.go:235-244 | decoding packed tile data (high bit times 2 plus low bit per column) gives back every index below 4 unchanged |
| Bitplanes.PackUnpack | pictotile.go:235-244 | every 16 bytes are the packing of the indices they decode to, so packing is a bijection from 64 indices below 4 onto 16-byte tiles |
| Bitplanes.PackZeros | pictotile.go:153-244 | a tile whose indices are all 0 packs to 16 zero bytes |
| Driver.Effective | pictotile.go:63-76 | each per-axis pair left at its default (1 for the size, 0 for offset and spacing) takes the square flag's value, and otherwise is kept as given |
| Driver.EffectiveIdempotent | pictotile.go:63-76 | writing the effective per-axis values back into the flags and defaulting again changes nothing |
| Driver.DefaultLayout | pictotile.go:50-76 | with every flag at its default the run cuts 1x1-tile sprites from (0, 0) with no spacing |
| Driver.TileCols | pictotile.go:113 | tile k of a tile row starts at x + 8k on row y, and the row holds exactly the tiles that fit before the right edge |
| Driver.TileRows | pictotile.go:112-113 | a sprite yields tiles exactly when one tile fits across and down, and the first is at its top-left corner |
| Driver.SpriteCols | pictotile.go:109-113 | a sprite row yields tiles exactly when a sprite fits at its left edge inside the image width |
| Driver.SpriteRows | pictotile.go:108-113 | the sprite rows from sy on yield tiles exactly when a sprite fits at (offsetX, sy) inside the image |
| Driver.Enumerate | pictotile.go:104-113 | the run cuts at least one tile exactly when the first sprite, at the offsets, fits inside the image |
| Driver.TileColsInBounds | pictotile.go:113 | every tile of a sprite's tile row starts at or after the sprite's left edge, ends within its right edge, and lies on that row |
| Driver.TileRowsInBounds | pictotile.go:112-113 | every tile of a sprite lies inside the sprite's rectangle |
| Driver.OriginColsInBounds | pictotile.go:109 | every sprite of a sprite row lies fully inside the image width and on that row |
| Driver.OriginColsInOrder | pictotile.go:109 | sprites along a row run left to right, each starting at least one sprite width plus the horizontal spacing after the previous one |
| Driver.OriginRowsInBounds | pictotile.go:108-109 | every sprite lies fully inside the image, at or after the horizontal offset and the starting row |
| Driver.OriginRowsInOrder | pictotile.go:108-109 | sprites are visited in reading order: a later sprite is on the same sprite row and further right, or on a later sprite row below the vertical spacing |
| Driver.OriginsInOrder | pictotile.go:104-109 | the whole run visits sprites in reading order, none overlapping the next |
| Driver.SpriteColsAreBlocks | pictotile.go:109-113 | one sprite row emits the tiles of its sprites, sprite after sprite |
| Driver.SpriteRowsAreBlocks | pictotile.go:108-113 | the sprite rows emit the tiles of all sprites, one sprite at a time in visiting order |
| Driver.EnumerateGroupsSprites | pictotile.go:104-121 | the tiles are emitted grouped by sprite, the sprites in reading order |
| Driver.EnumerateInBounds | pictotile.go:104-114 | every tile cut lies fully inside the image and not before the offsets, so no sub-image is partial |
| Driver.BlocksInBounds | pictotile.go:110-114 | sprites inside the image have all their tiles inside the image |
| Driver.TileColsShape | pictotile.go:113 | a tile row n tiles wide holds n tiles, and tile c starts 8c pixels to the right |
| Driver.TileRowsShape | pictotile.go:112-113 | a block h tiles tall and w wide holds h*w tiles, and the tile at row r, column c is emitted at position r*w + c |
| Driver.SpriteShape | pictotile.go:105-113 | a sprite holds dimX*dimY tiles, and the tile at (sx + 8c, sy + 8r) is its (r*dimX + c)-th |
| Driver.BlocksIndex | pictotile.go:108-116 | the m-th tile of the k-th sprite is output tile k*B + m, where B = dimX*dimY |
| Driver.BlocksLength | pictotile.go:108-116 | k sprites emit k*dimX*dimY tiles |
| Driver.SubTile | pictotile.go:114 | the sub-image at (x, y) is an 8x8 tile whose pixel (r, c) is image pixel (x + c, y + r); it is paletted exactly when the image is, with the image's palette, which decides which branch of lines 158-190 runs |
| Driver.EncodeTiles | pictotile.go:113-116 | a run of n tiles appends 16 bytes per tile and adds at most one registry entry per tile, at the end |
| Driver.EncodeTilesAppend | pictotile.go:113-116 | encoding a run in two parts, the second starting from the registry the first left, gives the same bytes and registry as encoding it in one go |
| Driver.EncodeTilesStart | pictotile.go:113-116 | the registry a run leaves starts with the registry its first tile left |
| Driver.RunExtends | pictotile.go:113-116 | for tiles i < j of a run, the registry before tile j starts with the registry tile i left |
| Driver.LaterTileSharesPalette | pictotile.go:113-116 | a later plain tile with the same extracted colours as an earlier one in the run is indexed against the earlier tile's palette and adds no entry, whatever was registered in between |
| Driver.EncodeTilesKeepsInvariant | pictotile.go:113-116 | the registry invariant holds from tile to tile through the whole run |
| Driver.ImageTiles | pictotile.go:104-116 | one well-formed tile is cut for each enumerated tile position |
| Driver.EncodeImage | pictotile.go:63-121 | the whole image gives 16 bytes per enumerated tile, and the final registry satisfies the registry invariant |

## Left out

- Flag parsing (lines 50-61), opening and decoding the input (78-102) and writing the output (122-145) are I/O. The model starts from the parsed flag values and the decoded pixels, and ends with the byte sequence.
- Flags are `nat`, not `uint`. Wrap-around of the uint sums in lines 105-113 only happens for values near 2^64 and is not modelled.
- A sprite size of 0 (`-d 0`) is excluded: Driver.Enumerate requires dimX and dimY to be at least 1. With a size of 0 no tile is emitted, since the tile loops of lines 112-113 never run. The sprite loops of lines 108-109 then run only from a positive offset inside the image, and never end when that axis's spacing is 0.
- The image's bounds are taken to start at (0, 0). The loops of lines 108-109 compare only against the maximum, and each tile is re-based so its pixels are indexed from (0, 0).
- The type assertion `tileset.(sImage)` at line 114 panics for an image type without SubImage. The model has only plain and paletted images.
- Go interface equality: the model identifies a colour by the four values its `RGBA()` returns, so it merges colours that Go's `==` keeps apart. Those are colours of different dynamic types, and colours of one type with equal `RGBA()` values, such as `NRGBA{255,0,0,0}` and `NRGBA{0,0,0,0}`. The colour scan (line 174) and `compare` (line 297) treat such colours as one in the model, where Go treats them as two.
- The nil branches of the sort (lines 262-270) are not reached: every palette slot holds a colour, since colours come from `At()` and a paletted image's pixels are entries of its non-empty palette.
- `color.Palette.Index` and its `sqDiff` belong to Go's image/color package, which is not part of this model. Colours.Index follows their definition there. `sqDiff` squares a uint32 difference that may wrap; the model squares the absolute difference instead, which gives the same value for 16-bit channels.
- TileEncoder.ByteOf: states the conversion only for values below 4, the only ones an encoder palette of at most four slots produces. It does not state the 8-bit truncation of larger values.
