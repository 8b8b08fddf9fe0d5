/** The pure part of `main` (pictotile.go lines 63-76 and 102-121): the
    flag defaulting, the order in which 8x8 tiles are cut from the image, and
    the run that feeds them to Encode one after another, threading the
    registry. */
module Driver {
  import opened Colours
  import opened Extraction
  import opened PaletteRegistry
  import opened TileEncoder

  // ---------------------------------------------------------------------------
  // Flags (lines 26-34, parsed with the defaults of lines 50-58)

  /** The geometry flags as parsed: sprite size in tiles, offset of the first
      sprite and spacing between sprites, each as a square value and per axis. */
  datatype Flags = Flags(
    dim: nat, dimX: nat, dimY: nat,
    offset: nat, offsetX: nat, offsetY: nat,
    spacing: nat, spacingX: nat, spacingY: nat)

  /** What the flags are when none is given. */
  const DefaultFlags := Flags(1, 1, 1, 0, 0, 0, 0, 0, 0)

  /** The per-axis geometry the tile loop uses. */
  datatype Layout = Layout(
    dimX: nat, dimY: nat,
    offsetX: nat, offsetY: nat,
    spacingX: nat, spacingY: nat)

  /** Lines 63-76: a pair of per-axis flags still at its default value
      (1 for sizes, 0 for offsets and spacings) takes the square flag instead. */
  function Effective(f: Flags): (l: Layout)
    ensures f.dimX != 1 || f.dimY != 1 ==> l.dimX == f.dimX && l.dimY == f.dimY
    ensures f.dimX == 1 && f.dimY == 1 ==> l.dimX == f.dim && l.dimY == f.dim
    ensures f.offsetX != 0 || f.offsetY != 0 ==> l.offsetX == f.offsetX && l.offsetY == f.offsetY
    ensures f.offsetX == 0 && f.offsetY == 0 ==> l.offsetX == f.offset && l.offsetY == f.offset
    ensures f.spacingX != 0 || f.spacingY != 0 ==> l.spacingX == f.spacingX && l.spacingY == f.spacingY
    ensures f.spacingX == 0 && f.spacingY == 0 ==> l.spacingX == f.spacing && l.spacingY == f.spacing
  {
    var (dimX, dimY) := if f.dimX == f.dimY && f.dimY == 1 then (f.dim, f.dim) else (f.dimX, f.dimY);
    var (offsetX, offsetY) := if f.offsetX == f.offsetY && f.offsetY == 0 then (f.offset, f.offset) else (f.offsetX, f.offsetY);
    var (spacingX, spacingY) := if f.spacingX == f.spacingY && f.spacingY == 0 then (f.spacing, f.spacing) else (f.spacingX, f.spacingY);
    Layout(dimX, dimY, offsetX, offsetY, spacingX, spacingY)
  }

  /** The flags with the per-axis values replaced by those of a layout. */
  function WithAxes(f: Flags, l: Layout): Flags {
    f.(dimX := l.dimX, dimY := l.dimY, offsetX := l.offsetX, offsetY := l.offsetY,
       spacingX := l.spacingX, spacingY := l.spacingY)
  }

  /** Defaulting is idempotent: writing the effective per-axis values back into
      the flags and defaulting again changes nothing. */
  lemma EffectiveIdempotent(f: Flags)
    ensures Effective(WithAxes(f, Effective(f))) == Effective(f)
  {
  }

  /** With no flags given the run cuts single tiles from the top-left corner. */
  lemma DefaultLayout()
    ensures Effective(DefaultFlags) == Layout(1, 1, 0, 0, 0, 0)
  {
  }

  // ---------------------------------------------------------------------------
  // Tile enumeration (lines 104-121)

  /** The top-left pixel (x, y) of a tile. */
  type Point = (nat, nat)

  /** Line 113: the tiles of one tile row of a sprite, left to right. */
  function TileCols(x: nat, y: nat, right: nat): (ts: seq<Point>)
    ensures forall k :: 0 <= k < |ts| ==> ts[k] == (x + 8 * k, y)
    ensures |ts| > 0 ==> x + 8 * |ts| <= right
    ensures right < x + 8 * |ts| + 8
    decreases right - x
  {
    if x + 8 - 1 < right then [(x, y)] + TileCols(x + 8, y, right) else []
  }

  /** Line 112: the tile rows of a sprite, top to bottom. */
  function TileRows(sx: nat, y: nat, right: nat, bottom: nat): (ts: seq<Point>)
    ensures |ts| > 0 <==> sx + 8 <= right && y + 8 <= bottom
    ensures |ts| > 0 ==> ts[0] == (sx, y)
    decreases bottom - y
  {
    if y + 8 - 1 < bottom then TileCols(sx, y, right) + TileRows(sx, y + 8, right, bottom) else []
  }

  lemma {:induction false} TileColsInBounds(x: nat, y: nat, right: nat)
    ensures forall t :: t in TileCols(x, y, right) ==> x <= t.0 && t.0 + 8 <= right && t.1 == y
    decreases right - x
  {
    if x + 8 - 1 < right {
      TileColsInBounds(x + 8, y, right);
    }
  }

  lemma {:induction false} TileRowsInBounds(sx: nat, y: nat, right: nat, bottom: nat)
    ensures forall t :: t in TileRows(sx, y, right, bottom) ==>
              sx <= t.0 && t.0 + 8 <= right && y <= t.1 && t.1 + 8 <= bottom
    decreases bottom - y
  {
    if y + 8 - 1 < bottom {
      TileColsInBounds(sx, y, right);
      TileRowsInBounds(sx, y + 8, right, bottom);
    }
  }

  /** The tiles of the sprite whose top-left pixel is (sx, sy), row-major. */
  function SpriteTiles(l: Layout, sx: nat, sy: nat): seq<Point> {
    TileRows(sx, sy, sx + 8 * l.dimX, sy + 8 * l.dimY)
  }

  /** Line 109: the sprites of one sprite row that lie fully inside the image. */
  function SpriteCols(l: Layout, sx: nat, sy: nat, width: nat): (ts: seq<Point>)
    requires l.dimX >= 1
    ensures l.dimY >= 1 ==> (|ts| > 0 <==> sx + 8 * l.dimX <= width)
    decreases width - sx
  {
    if sx + 8 * l.dimX - 1 < width
    then
      SpriteTiles(l, sx, sy) + SpriteCols(l, sx + 8 * l.dimX + l.spacingX, sy, width)
    else []
  }

  /** Line 108: the sprite rows, top to bottom. */
  function SpriteRows(l: Layout, sy: nat, width: nat, height: nat): (ts: seq<Point>)
    requires l.dimX >= 1 && l.dimY >= 1
    ensures |ts| > 0 <==> l.offsetX + 8 * l.dimX <= width && sy + 8 * l.dimY <= height
    decreases height - sy
  {
    if sy + 8 * l.dimY - 1 < height
    then SpriteCols(l, l.offsetX, sy, width) + SpriteRows(l, sy + 8 * l.dimY + l.spacingY, width, height)
    else []
  }

  /** Every tile the run encodes, in the order it encodes them. */
  function Enumerate(l: Layout, width: nat, height: nat): (ts: seq<Point>)
    requires l.dimX >= 1 && l.dimY >= 1
    ensures |ts| > 0 <==> l.offsetX + 8 * l.dimX <= width && l.offsetY + 8 * l.dimY <= height
  {
    SpriteRows(l, l.offsetY, width, height)
  }

  /** The top-left pixels of the sprites, in the order the loops visit them. */
  function OriginCols(l: Layout, sx: nat, sy: nat, width: nat): seq<Point>
    requires l.dimX >= 1
    decreases width - sx
  {
    if sx + 8 * l.dimX - 1 < width
    then [(sx, sy)] + OriginCols(l, sx + 8 * l.dimX + l.spacingX, sy, width)
    else []
  }

  /** One sprite row: origins inside the image from sx on, all on row sy. */
  lemma {:induction false} OriginColsInBounds(l: Layout, sx: nat, sy: nat, width: nat)
    requires l.dimX >= 1
    ensures forall o :: o in OriginCols(l, sx, sy, width) ==> sx <= o.0 && o.0 + 8 * l.dimX <= width && o.1 == sy
    decreases width - sx
  {
    if sx + 8 * l.dimX - 1 < width {
      OriginColsInBounds(l, sx + 8 * l.dimX + l.spacingX, sy, width);
    }
  }

  /** One sprite row, left to right, each sprite clear of the previous one by
      the horizontal spacing. */
  lemma {:induction false} OriginColsInOrder(l: Layout, sx: nat, sy: nat, width: nat)
    requires l.dimX >= 1
    ensures forall a, b :: 0 <= a < b < |OriginCols(l, sx, sy, width)| ==>
              OriginCols(l, sx, sy, width)[a].0 + 8 * l.dimX + l.spacingX <= OriginCols(l, sx, sy, width)[b].0
    decreases width - sx
  {
    if sx + 8 * l.dimX - 1 < width {
      var next := sx + 8 * l.dimX + l.spacingX;
      var rest := OriginCols(l, next, sy, width);
      var os := [(sx, sy)] + rest;
      OriginColsInOrder(l, next, sy, width);
      OriginColsInBounds(l, next, sy, width);
      assert OriginCols(l, sx, sy, width) == os;
      forall a, b | 0 <= a < b < |os|
        ensures os[a].0 + 8 * l.dimX + l.spacingX <= os[b].0
      {
        assert os[b] == rest[b - 1] && rest[b - 1] in rest;
        if a == 0 {
          assert os[a] == (sx, sy);
          assert next <= rest[b - 1].0;
        } else {
          assert os[a] == rest[a - 1];
          assert rest[a - 1].0 + 8 * l.dimX + l.spacingX <= rest[b - 1].0;
        }
      }
    }
  }

  function OriginRows(l: Layout, sy: nat, width: nat, height: nat): seq<Point>
    requires l.dimX >= 1 && l.dimY >= 1
    decreases height - sy
  {
    if sy + 8 * l.dimY - 1 < height
    then OriginCols(l, l.offsetX, sy, width) + OriginRows(l, sy + 8 * l.dimY + l.spacingY, width, height)
    else []
  }

  lemma {:induction false} OriginRowsInBounds(l: Layout, sy: nat, width: nat, height: nat)
    requires l.dimX >= 1 && l.dimY >= 1
    ensures forall o :: o in OriginRows(l, sy, width, height) ==>
              && l.offsetX <= o.0 && o.0 + 8 * l.dimX <= width
              && sy <= o.1 && o.1 + 8 * l.dimY <= height
    decreases height - sy
  {
    if sy + 8 * l.dimY - 1 < height {
      OriginColsInBounds(l, l.offsetX, sy, width);
      OriginRowsInBounds(l, sy + 8 * l.dimY + l.spacingY, width, height);
    }
  }

  /** The sprite origins of the whole run. */
  function Origins(l: Layout, width: nat, height: nat): (os: seq<Point>)
    requires l.dimX >= 1 && l.dimY >= 1
  {
    OriginRows(l, l.offsetY, width, height)
  }

  /** Sprite q starts below sprite p and the vertical spacing, or on the same
      sprite row right of p and the horizontal spacing. */
  predicate Before(l: Layout, p: Point, q: Point) {
    || p.1 + 8 * l.dimY + l.spacingY <= q.1
    || (p.1 == q.1 && p.0 + 8 * l.dimX + l.spacingX <= q.0)
  }

  predicate InReadingOrder(l: Layout, os: seq<Point>) {
    forall a, b :: 0 <= a < b < |os| ==> Before(l, os[a], os[b])
  }

  lemma {:induction false} OriginRowsInOrder(l: Layout, sy: nat, width: nat, height: nat)
    requires l.dimX >= 1 && l.dimY >= 1
    ensures InReadingOrder(l, OriginRows(l, sy, width, height))
    decreases height - sy
  {
    if sy + 8 * l.dimY - 1 < height {
      var next := sy + 8 * l.dimY + l.spacingY;
      var row := OriginCols(l, l.offsetX, sy, width);
      var rest := OriginRows(l, next, width, height);
      var os := row + rest;
      OriginRowsInOrder(l, next, width, height);
      OriginColsInBounds(l, l.offsetX, sy, width);
      OriginColsInOrder(l, l.offsetX, sy, width);
      OriginRowsInBounds(l, next, width, height);
      assert OriginRows(l, sy, width, height) == os;
      forall a, b | 0 <= a < b < |os|
        ensures Before(l, os[a], os[b])
      {
        if b < |row| {
          assert os[a] == row[a] && os[b] == row[b];
          assert row[a] in row && row[b] in row;
        } else if a < |row| {
          assert os[a] == row[a] && row[a] in row;
          assert os[b] == rest[b - |row|] && rest[b - |row|] in rest;
        } else {
          assert os[a] == rest[a - |row|] && os[b] == rest[b - |row|];
        }
      }
    }
  }

  /** The sprites are visited in reading order, no two overlapping and each
      clear of the next by at least the spacing. */
  lemma OriginsInOrder(l: Layout, width: nat, height: nat)
    requires l.dimX >= 1 && l.dimY >= 1
    ensures InReadingOrder(l, Origins(l, width, height))
  {
    OriginRowsInOrder(l, l.offsetY, width, height);
  }

  /** The tiles of the given sprites, one sprite after another. */
  function Blocks(l: Layout, os: seq<Point>): seq<Point> {
    if |os| == 0 then [] else SpriteTiles(l, os[0].0, os[0].1) + Blocks(l, os[1..])
  }

  lemma {:induction false} BlocksAppend(l: Layout, a: seq<Point>, b: seq<Point>)
    ensures Blocks(l, a + b) == Blocks(l, a) + Blocks(l, b)
  {
    if |a| == 0 {
      assert a + b == b;
    } else {
      assert (a + b)[1..] == a[1..] + b;
      BlocksAppend(l, a[1..], b);
    }
  }

  lemma {:induction false} SpriteColsAreBlocks(l: Layout, sx: nat, sy: nat, width: nat)
    requires l.dimX >= 1
    ensures SpriteCols(l, sx, sy, width) == Blocks(l, OriginCols(l, sx, sy, width))
    decreases width - sx
  {
    if sx + 8 * l.dimX - 1 < width {
      var next := sx + 8 * l.dimX + l.spacingX;
      var os := OriginCols(l, sx, sy, width);
      var rest := OriginCols(l, next, sy, width);
      SpriteColsAreBlocks(l, next, sy, width);
      assert SpriteCols(l, sx, sy, width) == SpriteTiles(l, sx, sy) + SpriteCols(l, next, sy, width);
      assert os == [(sx, sy)] + rest;
      assert os[0] == (sx, sy) && os[1..] == rest;
      assert Blocks(l, os) == SpriteTiles(l, sx, sy) + Blocks(l, rest);
    } else {
      assert SpriteCols(l, sx, sy, width) == [];
      assert OriginCols(l, sx, sy, width) == [];
    }
  }

  lemma {:induction false} SpriteRowsAreBlocks(l: Layout, sy: nat, width: nat, height: nat)
    requires l.dimX >= 1 && l.dimY >= 1
    ensures SpriteRows(l, sy, width, height) == Blocks(l, OriginRows(l, sy, width, height))
    decreases height - sy
  {
    if sy + 8 * l.dimY - 1 < height {
      var next := sy + 8 * l.dimY + l.spacingY;
      var cols, rows := OriginCols(l, l.offsetX, sy, width), OriginRows(l, next, width, height);
      assert SpriteRows(l, sy, width, height) == SpriteCols(l, l.offsetX, sy, width) + SpriteRows(l, next, width, height);
      assert OriginRows(l, sy, width, height) == cols + rows;
      SpriteColsAreBlocks(l, l.offsetX, sy, width);
      SpriteRowsAreBlocks(l, next, width, height);
      BlocksAppend(l, cols, rows);
    }
  }

  /** The run emits the tiles of one sprite together, sprite after sprite in
      row-major order of the sprites. */
  lemma EnumerateGroupsSprites(l: Layout, width: nat, height: nat)
    requires l.dimX >= 1 && l.dimY >= 1
    ensures Enumerate(l, width, height) == Blocks(l, Origins(l, width, height))
  {
    SpriteRowsAreBlocks(l, l.offsetY, width, height);
  }

  /** Every enumerated tile lies fully inside the image and not before the
      offsets. */
  lemma {:induction false} EnumerateInBounds(l: Layout, width: nat, height: nat)
    requires l.dimX >= 1 && l.dimY >= 1
    ensures forall t :: t in Enumerate(l, width, height) ==>
              && l.offsetX <= t.0 && t.0 + 8 <= width
              && l.offsetY <= t.1 && t.1 + 8 <= height
  {
    EnumerateGroupsSprites(l, width, height);
    OriginRowsInBounds(l, l.offsetY, width, height);
    BlocksInBounds(l, Origins(l, width, height), width, height);
  }

  lemma {:induction false} BlocksInBounds(l: Layout, os: seq<Point>, width: nat, height: nat)
    requires l.dimX >= 1 && l.dimY >= 1
    requires forall o :: o in os ==>
               && l.offsetX <= o.0 && o.0 + 8 * l.dimX <= width
               && l.offsetY <= o.1 && o.1 + 8 * l.dimY <= height
    ensures forall t :: t in Blocks(l, os) ==>
              && l.offsetX <= t.0 && t.0 + 8 <= width
              && l.offsetY <= t.1 && t.1 + 8 <= height
  {
    if |os| > 0 {
      assert os[0] in os;
      TileRowsInBounds(os[0].0, os[0].1, os[0].0 + 8 * l.dimX, os[0].1 + 8 * l.dimY);
      BlocksInBounds(l, os[1..], width, height);
    }
  }

  /** n * w, written as repeated addition so that the shape lemmas below stay
      within linear arithmetic. */
  function Times(n: nat, w: nat): nat {
    if n == 0 then 0 else w + Times(n - 1, w)
  }

  lemma {:induction false} TimesIsProduct(n: nat, w: nat)
    ensures Times(n, w) == n * w
  {
    if n > 0 {
      TimesIsProduct(n - 1, w);
    }
  }

  /** Position of tile row r, column c in a row-major list w tiles wide. */
  function RowMajor(r: nat, c: nat, w: nat): nat {
    Times(r, w) + c
  }

  lemma {:induction false} TileColsShape(x: nat, y: nat, right: nat, n: nat)
    requires right == x + 8 * n
    ensures |TileCols(x, y, right)| == n
    ensures forall c :: 0 <= c < n ==> TileCols(x, y, right)[c] == (x + 8 * c, y)
    decreases n
  {
    if n > 0 {
      TileColsShape(x + 8, y, right, n - 1);
    }
  }

  lemma {:induction false} TileRowsShape(sx: nat, y: nat, right: nat, bottom: nat, w: nat, h: nat)
    requires right == sx + 8 * w && bottom == y + 8 * h
    ensures |TileRows(sx, y, right, bottom)| == Times(h, w)
    ensures forall r, c :: 0 <= r < h && 0 <= c < w ==>
              && RowMajor(r, c, w) < Times(h, w)
              && TileRows(sx, y, right, bottom)[RowMajor(r, c, w)] == (sx + 8 * c, y + 8 * r)
    decreases h
  {
    if h > 0 {
      var row := TileCols(sx, y, right);
      var rest := TileRows(sx, y + 8, right, bottom);
      TileColsShape(sx, y, right, w);
      TileRowsShape(sx, y + 8, right, bottom, w, h - 1);
      assert TileRows(sx, y, right, bottom) == row + rest;
      forall r, c | 0 <= r < h && 0 <= c < w
        ensures RowMajor(r, c, w) < Times(h, w)
        ensures (row + rest)[RowMajor(r, c, w)] == (sx + 8 * c, y + 8 * r)
      {
        if r == 0 {
          assert RowMajor(r, c, w) == c;
          assert (row + rest)[c] == row[c];
        } else {
          var m := RowMajor(r - 1, c, w);
          assert RowMajor(r, c, w) == w + m;
          assert m < |rest| && (row + rest)[w + m] == rest[m];
          assert rest[m] == (sx + 8 * c, y + 8 + 8 * (r - 1));
        }
      }
    }
  }

  /** A sprite holds dimX * dimY tiles; the one in tile row r, column c sits at
      (sx + 8c, sy + 8r) and is emitted as the (r * dimX + c)-th. */
  lemma SpriteShape(l: Layout, sx: nat, sy: nat)
    ensures |SpriteTiles(l, sx, sy)| == l.dimX * l.dimY
    ensures forall r, c :: 0 <= r < l.dimY && 0 <= c < l.dimX ==>
              && RowMajor(r, c, l.dimX) < l.dimX * l.dimY
              && SpriteTiles(l, sx, sy)[RowMajor(r, c, l.dimX)] == (sx + 8 * c, sy + 8 * r)
  {
    TileRowsShape(sx, sy, sx + 8 * l.dimX, sy + 8 * l.dimY, l.dimX, l.dimY);
    TimesIsProduct(l.dimY, l.dimX);
  }

  /** Sprite k's tiles occupy positions k * B .. k * B + B - 1 of the output,
      where B = dimX * dimY is the size of one sprite. */
  lemma {:induction false} BlocksIndex(l: Layout, os: seq<Point>, k: nat, m: nat)
    requires k < |os| && m < l.dimX * l.dimY
    ensures |SpriteTiles(l, os[k].0, os[k].1)| == l.dimX * l.dimY
    ensures && RowMajor(k, m, l.dimX * l.dimY) < |Blocks(l, os)|
            && Blocks(l, os)[RowMajor(k, m, l.dimX * l.dimY)] == SpriteTiles(l, os[k].0, os[k].1)[m]
  {
    var B := l.dimX * l.dimY;
    SpriteShape(l, os[0].0, os[0].1);
    BlocksLength(l, os[1..]);
    if k > 0 {
      BlocksIndex(l, os[1..], k - 1, m);
      assert RowMajor(k, m, B) == B + RowMajor(k - 1, m, B);
    }
  }

  lemma {:induction false} BlocksLength(l: Layout, os: seq<Point>)
    ensures |Blocks(l, os)| == Times(|os|, l.dimX * l.dimY)
  {
    if |os| > 0 {
      SpriteShape(l, os[0].0, os[0].1);
      BlocksLength(l, os[1..]);
    }
  }

  // ---------------------------------------------------------------------------
  // Running the encoder over the image

  /** The decoded image: plain colours, or paletted with its own palette. */
  datatype Image =
    | RawImage(pixels: Grid)
    | PalettedImage(palette: Palette, pixels: Grid)

  function Width(img: Image): nat {
    if |img.pixels| == 0 then 0 else |img.pixels[0]|
  }

  function Height(img: Image): nat {
    |img.pixels|
  }

  /** Rows of equal length; a paletted image's pixels come from its palette,
      which is non-empty. */
  predicate WellFormedImage(img: Image) {
    && (forall y :: 0 <= y < |img.pixels| ==> |img.pixels[y]| == Width(img))
    && (img.PalettedImage? ==>
          && |img.palette| > 0
          && forall y, x :: 0 <= y < Height(img) && 0 <= x < Width(img) ==> img.pixels[y][x] in img.palette)
  }

  /** Line 114: the 8x8 sub-image at (x, y); a paletted image's sub-image is
      paletted with the same palette. */
  function SubTile(img: Image, p: Point): (t: Tile)
    requires WellFormedImage(img)
    requires p.0 + 8 <= Width(img) && p.1 + 8 <= Height(img)
    ensures WellFormed(t)
    ensures t.Indexed? <==> img.PalettedImage?
    ensures t.Indexed? ==> t.palette == img.palette
    ensures forall r, c :: 0 <= r < 8 && 0 <= c < 8 ==> t.pixels[r][c] == img.pixels[p.1 + r][p.0 + c]
  {
    var g := seq(8, r requires 0 <= r < 8 => img.pixels[p.1 + r][p.0..p.0 + 8]);
    match img
    case RawImage(_) => Raw(g)
    case PalettedImage(palette, _) => Indexed(palette, g)
  }

  /** Lines 113-116: the tiles encoded one after another, each seeing the
      registry as the tiles before it left it, their bytes concatenated. */
  function EncodeTiles(reg: Registry, ts: seq<Tile>, spriteMode: bool): (e: Encoded)
    requires forall t :: t in ts ==> WellFormed(t)
    ensures |e.data| == 16 * |ts|
    ensures |reg| <= |e.registry| <= |reg| + |ts| && e.registry[..|reg|] == reg
    decreases |ts|
  {
    if |ts| == 0 then Encoded(reg, [])
    else
      var first := Encode(reg, ts[0], spriteMode);
      var rest := EncodeTiles(first.registry, ts[1..], spriteMode);
      Encoded(rest.registry, first.data + rest.data)
  }

  /** Encoding a run in two parts is encoding the second part against the
      registry the first part left. */
  lemma {:induction false} EncodeTilesAppend(reg: Registry, a: seq<Tile>, b: seq<Tile>, spriteMode: bool)
    requires forall t :: t in a ==> WellFormed(t)
    requires forall t :: t in b ==> WellFormed(t)
    ensures var ea := EncodeTiles(reg, a, spriteMode);
            var eb := EncodeTiles(ea.registry, b, spriteMode);
            EncodeTiles(reg, a + b, spriteMode) == Encoded(eb.registry, ea.data + eb.data)
    decreases |a|
  {
    if |a| == 0 {
      assert a + b == b;
    } else {
      var first := Encode(reg, a[0], spriteMode);
      assert (a + b)[0] == a[0];
      assert (a + b)[1..] == a[1..] + b;
      EncodeTilesAppend(first.registry, a[1..], b, spriteMode);
      var ea' := EncodeTiles(first.registry, a[1..], spriteMode);
      var eb := EncodeTiles(ea'.registry, b, spriteMode);
      assert first.data + (ea'.data + eb.data) == (first.data + ea'.data) + eb.data;
    }
  }

  /** A run keeps the registry invariant from tile to tile. */
  lemma {:induction false} EncodeTilesKeepsInvariant(reg: Registry, ts: seq<Tile>, spriteMode: bool)
    requires forall t :: t in ts ==> WellFormed(t)
    requires Invariant(reg, spriteMode)
    ensures Invariant(EncodeTiles(reg, ts, spriteMode).registry, spriteMode)
    decreases |ts|
  {
    if |ts| > 0 {
      assert ts[0] in ts;
      EncodeKeepsInvariant(reg, ts[0], spriteMode);
      EncodeTilesKeepsInvariant(Encode(reg, ts[0], spriteMode).registry, ts[1..], spriteMode);
    }
  }

  /** For the whole run: a plain tile whose extracted colours are those of an
      earlier plain tile is indexed against the earlier tile's palette and
      registers nothing, whatever was encoded in between. */
  lemma LaterTileSharesPalette(reg: Registry, ts: seq<Tile>, i: nat, j: nat, spriteMode: bool)
    requires forall t :: t in ts ==> WellFormed(t)
    requires i < j < |ts| && ts[i].Raw? && ts[j].Raw?
    requires forall c :: c in Extract(ts[i].pixels) <==> c in Extract(ts[j].pixels)
    ensures var before := EncodeTiles(reg, ts[..i], spriteMode).registry;
            var now := EncodeTiles(reg, ts[..j], spriteMode).registry;
            ResolveTile(now, ts[j], spriteMode) == Resolved(now, ResolveTile(before, ts[i], spriteMode).palette)
  {
    var before := EncodeTiles(reg, ts[..i], spriteMode).registry;
    var now := EncodeTiles(reg, ts[..j], spriteMode).registry;
    RunExtends(reg, ts, i, j, spriteMode);
    assert ts[i] in ts && ts[j] in ts;
    SameColoursShareExtendedPalette(before, ts[i].pixels, ts[j].pixels, now, spriteMode);
  }

  /** The registry before tile j extends the one tile i left, for i < j. */
  lemma RunExtends(reg: Registry, ts: seq<Tile>, i: nat, j: nat, spriteMode: bool)
    requires forall t :: t in ts ==> WellFormed(t)
    requires i < j <= |ts|
    ensures var before := EncodeTiles(reg, ts[..i], spriteMode).registry;
            var left := ResolveTile(before, ts[i], spriteMode).registry;
            var now := EncodeTiles(reg, ts[..j], spriteMode).registry;
            |left| <= |now| && now[..|left|] == left
  {
    var before := EncodeTiles(reg, ts[..i], spriteMode).registry;
    assert ts[..i] + ts[i..j] == ts[..j];
    assert forall t :: t in ts[i..j] ==> t in ts;
    EncodeTilesAppend(reg, ts[..i], ts[i..j], spriteMode);
    EncodeTilesStart(before, ts[i..j], spriteMode);
    assert ts[i..j][0] == ts[i];
  }

  /** The registry after a run extends the one its first tile left. */
  lemma EncodeTilesStart(reg: Registry, ts: seq<Tile>, spriteMode: bool)
    requires forall t :: t in ts ==> WellFormed(t)
    requires |ts| > 0
    ensures var first := ResolveTile(reg, ts[0], spriteMode).registry;
            var after := EncodeTiles(reg, ts, spriteMode).registry;
            |first| <= |after| && after[..|first|] == first
  {
    assert ts[0] in ts;
    assert forall t :: t in ts[1..] ==> t in ts;
    var first := Encode(reg, ts[0], spriteMode);
    assert first.registry == ResolveTile(reg, ts[0], spriteMode).registry;
    var rest := EncodeTiles(first.registry, ts[1..], spriteMode);
    assert EncodeTiles(reg, ts, spriteMode).registry == rest.registry;
  }

  /** The tiles the run cuts from the image, in encoding order. */
  function ImageTiles(img: Image, l: Layout): (ts: seq<Tile>)
    requires WellFormedImage(img) && l.dimX >= 1 && l.dimY >= 1
    ensures |ts| == |Enumerate(l, Width(img), Height(img))|
    ensures forall t :: t in ts ==> WellFormed(t)
  {
    var ps := Enumerate(l, Width(img), Height(img));
    EnumerateInBounds(l, Width(img), Height(img));
    seq(|ps|, k requires 0 <= k < |ps| => SubTile(img, ps[k]))
  }

  /** Lines 63-121: the whole conversion, from an empty registry, as the
      concatenated tile data and the final registry. */
  function EncodeImage(img: Image, f: Flags, spriteMode: bool): (e: Encoded)
    requires WellFormedImage(img)
    requires Effective(f).dimX >= 1 && Effective(f).dimY >= 1
    ensures |e.data| == 16 * |Enumerate(Effective(f), Width(img), Height(img))|
    ensures Invariant(e.registry, spriteMode)
  {
    var ts := ImageTiles(img, Effective(f));
    EncodeTilesKeepsInvariant([], ts, spriteMode);
    EncodeTiles([], ts, spriteMode)
  }
}
