/** Colour extraction for a tile that is not already paletted
    (pictotile.go lines 169-189): the scan loop exactly as written, and the
    proof that it yields the first four distinct colours in row-major order. */
module Extraction {
  import opened Colours

  /** Pixels by row, then column. */
  type Grid = seq<seq<Colour>>

  /** The pixels of a grid in row-major scan order. */
  function Flatten(g: Grid): (s: seq<Colour>)
    ensures forall y, x :: 0 <= y < |g| && 0 <= x < |g[y]| ==> g[y][x] in s
    ensures forall c :: c in s ==> exists y, x :: 0 <= y < |g| && 0 <= x < |g[y]| && g[y][x] == c
  {
    if |g| == 0 then [] else Flatten(g[..|g| - 1]) + g[|g| - 1]
  }

  /** The distinct colours of s in order of first appearance; this is the
      reference the scan is measured against. */
  function Dedup(s: seq<Colour>): (d: seq<Colour>)
    ensures Distinct(d)
    ensures forall c :: c in d <==> c in s
    ensures |d| <= |s|
  {
    if |s| == 0 then []
    else
      var d := Dedup(s[..|s| - 1]);
      if s[|s| - 1] in d then d else d + [s[|s| - 1]]
  }

  /** The inner loop over one row from column x on (lines 170-185). A colour
      not yet in the palette is appended; once the palette has four entries
      the `break` leaves this row, but not the scan of later rows. */
  function ScanRow(pal: Palette, row: seq<Colour>, x: nat): (r: Palette)
    requires x <= |row|
    ensures pal <= r
    ensures forall c :: c in r ==> c in pal || c in row[x..]
    ensures Distinct(pal) ==> Distinct(r)
    ensures |r| <= if |pal| < 4 then 4 else |pal| + 1
    decreases |row| - x
  {
    if x == |row| then pal
    else
      var next := if Contains(pal, row[x]) then pal else pal + [row[x]];
      if |next| >= 4 then next else ScanRow(next, row, x + 1)
  }

  /** The outer loop over rows from row y on (lines 169-186). */
  function ScanRows(pal: Palette, g: Grid, y: nat): (r: Palette)
    requires y <= |g|
    ensures pal <= r
    ensures forall c :: c in r ==> c in pal || exists y', x :: y <= y' < |g| && 0 <= x < |g[y']| && g[y'][x] == c
    ensures Distinct(pal) ==> Distinct(r)
    decreases |g| - y
  {
    if y == |g| then pal
    else
      var next := ScanRow(pal, g[y], 0);
      assert forall c :: c in next ==> c in pal || exists x :: 0 <= x < |g[y]| && g[y][x] == c;
      ScanRows(next, g, y + 1)
  }

  /** The scan followed by the truncation to four colours (lines 187-189). */
  function Extract(g: Grid): (pal: Palette)
    ensures |pal| <= 4
    ensures Distinct(pal)
    ensures forall c :: c in pal ==> exists y, x :: 0 <= y < |g| && 0 <= x < |g[y]| && g[y][x] == c
  {
    var all := ScanRows([], g, 0);
    assert forall c :: c in Take(all, 4) ==> c in all;
    Take(all, 4)
  }

  /** The palette the source is meant to build: the first four distinct colours
      of the tile in row-major order, or all of them when there are fewer. */
  function FirstColours(g: Grid): (pal: Palette)
    ensures |pal| <= 4
  {
    Take(Dedup(Flatten(g)), 4)
  }

  // ---------------------------------------------------------------------------
  // The scan agrees with FirstColours.

  /** What the palette built so far knows about the pixels P scanned so far:
      its first four entries are those of Dedup(P), and until it is full it is
      exactly Dedup(P). */
  predicate Tracks(pal: Palette, P: seq<Colour>) {
    && Take(pal, 4) == Take(Dedup(P), 4)
    && (|pal| < 4 ==> pal == Dedup(P))
  }

  /** Scanning more pixels only appends to the list of first appearances. */
  lemma {:induction false} DedupPrefix(P: seq<Colour>, Q: seq<Colour>)
    ensures Dedup(P) <= Dedup(P + Q)
    decreases |Q|
  {
    if |Q| == 0 {
      assert P + Q == P;
    } else {
      var Q' := Q[..|Q| - 1];
      assert (P + Q)[..|P + Q| - 1] == P + Q';
      DedupPrefix(P, Q');
    }
  }

  /** One more pixel adds its colour to the first appearances unless seen. */
  lemma DedupSnoc(P: seq<Colour>, c: Colour)
    ensures Dedup(P + [c]) == if c in Dedup(P) then Dedup(P) else Dedup(P) + [c]
  {
    assert (P + [c])[..|P + [c]| - 1] == P;
  }

  lemma TakeOfPrefix(a: Palette, b: Palette, n: nat)
    requires a <= b && n <= |a|
    ensures Take(a, n) == Take(b, n)
  {
  }

  /** The inner loop keeps Tracks from column x to the end of the row (or to
      the `break`). */
  lemma {:induction false} ScanRowTracks(pal: Palette, row: seq<Colour>, x: nat, P: seq<Colour>)
    requires x <= |row|
    requires Tracks(pal, P)
    ensures Tracks(ScanRow(pal, row, x), P + row[x..])
    decreases |row| - x
  {
    if x == |row| {
      assert P + row[x..] == P;
    } else {
      var c := row[x];
      var next := if Contains(pal, c) then pal else pal + [c];
      assert ScanRow(pal, row, x) == if |next| >= 4 then next else ScanRow(next, row, x + 1);
      assert P + row[x..] == (P + [c]) + row[x + 1..];
      if |pal| >= 4 {
        ScanRowFull(pal, next, P, row[x..]);
      } else {
        DedupSnoc(P, c);
        assert next == Dedup(P + [c]);
        if |next| >= 4 {
          ScanRowFull(next, next, P + [c], row[x + 1..]);
        } else {
          ScanRowTracks(next, row, x + 1, P + [c]);
        }
      }
    }
  }

  /** Once the palette has four entries, further pixels leave its first four
      entries and those of the first appearances alike. */
  lemma ScanRowFull(pal: Palette, next: Palette, P: seq<Colour>, Q: seq<Colour>)
    requires |pal| >= 4 && pal <= next
    requires Take(pal, 4) == Take(Dedup(P), 4)
    ensures Tracks(next, P + Q)
  {
    TakeOfPrefix(pal, next, 4);
    DedupPrefix(P, Q);
    TakeOfPrefix(Dedup(P), Dedup(P + Q), 4);
  }

  lemma {:induction false} ScanRowsTracks(pal: Palette, g: Grid, y: nat)
    requires y <= |g|
    requires Tracks(pal, Flatten(g[..y]))
    ensures Tracks(ScanRows(pal, g, y), Flatten(g))
    decreases |g| - y
  {
    if y == |g| {
      assert g[..y] == g;
    } else {
      ScanRowTracks(pal, g[y], 0, Flatten(g[..y]));
      assert g[..y + 1][..y] == g[..y];
      assert g[y][0..] == g[y];
      ScanRowsTracks(ScanRow(pal, g[y], 0), g, y + 1);
    }
  }

  /** The scan, with its row-local `break` and the final truncation, computes
      exactly the first four distinct colours in row-major order. */
  lemma ExtractIsFirstColours(g: Grid)
    ensures Extract(g) == FirstColours(g)
  {
    assert g[..0] == [];
    ScanRowsTracks([], g, 0);
  }

  /** The extracted palette: pairwise distinct colours of the tile, never padded,
      holding min(4, n) entries for a tile of n distinct colours, and holding
      every colour of the tile when it has at most four. */
  lemma ExtractProperties(g: Grid)
    ensures Distinct(Extract(g))
    ensures forall c :: c in Extract(g) ==> c in Flatten(g)
    ensures |Extract(g)| == if |Dedup(Flatten(g))| <= 4 then |Dedup(Flatten(g))| else 4
    ensures |Dedup(Flatten(g))| <= 4 ==> forall c :: c in Flatten(g) ==> c in Extract(g)
    ensures |Flatten(g)| > 0 ==> |Extract(g)| > 0
  {
    ExtractIsFirstColours(g);
    var d := Dedup(Flatten(g));
    if |Flatten(g)| > 0 {
      assert Flatten(g)[0] in d;
    }
  }
}
