/** Colours as the image library hands them out, the brightness order the
    palette sort uses, and the membership and lookup helpers shared by the
    colour scan, the palette comparison and the index assignment. */
module Colours {

  /** One channel as returned by the library's RGBA(): a 16-bit value held in a
      uint32. Keeping channels below 2^16 is what lets the sort add three of
      them without overflowing 32 bits, so sums here are exact. */
  type Channel = c: int | 0 <= c < 0x1_0000

  /** A colour is identified by the four values its RGBA() returns, so two
      colours are equal exactly when those values are. */
  datatype Colour = Colour(r: Channel, g: Channel, b: Channel, a: Channel)

  /** An ordered list of colours; a slot's position is the pixel index it encodes. */
  type Palette = seq<Colour>

  datatype Option<T> = None | Some(value: T)

  /** The sort key of a colour is (R+G+B, G+B, B); x is Brighter than y when its
      key is lexicographically greater. Alpha takes no part. */
  predicate Brighter(x: Colour, y: Colour) {
    || x.r + x.g + x.b > y.r + y.g + y.b
    || (x.r + x.g + x.b == y.r + y.g + y.b
        && (|| x.g + x.b > y.g + y.b
            || (x.g + x.b == y.g + y.b && x.b > y.b)))
  }

  /** Equal sort keys: neither colour is brighter than the other. */
  predicate SameKey(x: Colour, y: Colour) {
    !Brighter(x, y) && !Brighter(y, x)
  }

  /** The key (R+G+B, G+B, B) determines R, G and B, so two colours share a key
      exactly when they differ at most in alpha. */
  lemma SameKeyIffSameRgb(x: Colour, y: Colour)
    ensures SameKey(x, y) <==> (x.r == y.r && x.g == y.g && x.b == y.b)
  {
  }

  /** Not being brighter is a total preorder: it is transitive and any two
      colours are comparable. */
  lemma NotBrighterIsTotalPreorder(x: Colour, y: Colour, z: Colour)
    ensures !Brighter(x, y) && !Brighter(y, z) ==> !Brighter(x, z)
    ensures !Brighter(x, y) || !Brighter(y, x)
    ensures !Brighter(x, x)
  {
  }

  /** Linear search with early exit, as the source scans a palette for a colour. */
  function Contains(p: Palette, c: Colour): (found: bool)
    ensures found <==> c in p
  {
    |p| > 0 && (p[0] == c || Contains(p[1..], c))
  }

  /** The first slot holding c. */
  function FirstIndex(p: Palette, c: Colour): (slot: nat)
    requires c in p
    ensures slot < |p| && p[slot] == c && forall k :: 0 <= k < slot ==> p[k] != c
  {
    if p[0] == c then 0 else 1 + FirstIndex(p[1..], c)
  }

  /** No colour occupies two slots. */
  predicate Distinct(p: Palette) {
    forall i, j :: 0 <= i < j < |p| ==> p[i] != p[j]
  }

  /** The first n elements, or all of them when there are fewer. */
  function Take<T>(s: seq<T>, n: nat): (t: seq<T>)
    ensures |t| == if |s| <= n then |s| else n
    ensures t == s[..|t|]
  {
    if |s| <= n then s else s[..n]
  }

  // ---------------------------------------------------------------------------
  // The library's nearest-colour lookup, color.Palette.Index

  /** The largest uint32, which Palette.Index starts from as its best distance. */
  const MaxUint32: nat := 0xFFFF_FFFF

  /** Two channel values at most 1 apart. */
  predicate Close(x: Channel, y: Channel) {
    x - y <= 1 && y - x <= 1
  }

  /** Every channel of x is at most 1 away from that of y. */
  predicate Near(x: Colour, y: Colour) {
    Close(x.r, y.r) && Close(x.g, y.g) && Close(x.b, y.b) && Close(x.a, y.a)
  }

  /** The library's sqDiff: the squared difference shifted right by 2. It
      subtracts in uint32 and lets the difference wrap, which for 16-bit
      channels squares to the same number as the absolute difference, and
      the square stays below 2^32. */
  function SqDiff(x: Channel, y: Channel): (s: nat)
    ensures s <= 0x3FFF_8000
    ensures s == 0 <==> Close(x, y)
  {
    var d := if x < y then y - x else x - y;
    SquareBounds(d);
    Square(d) / 4
  }

  /** d * d, by the recurrence (d + 1)^2 = d^2 + 2d + 1. */
  function Square(d: nat): nat {
    if d == 0 then 0 else Square(d - 1) + 2 * d - 1
  }

  lemma {:induction false} SquareIsProduct(d: nat)
    ensures Square(d) == d * d
  {
    if d > 0 {
      SquareIsProduct(d - 1);
    }
  }

  lemma SquareBounds(d: nat)
    requires d < 0x1_0000
    ensures Square(d) <= 0xFFFE_0001
    ensures Square(d) / 4 == 0 <==> d <= 1
  {
    SquareIsProduct(d);
    assert d * d <= d * 0xFFFF;
    if d >= 2 {
      assert d * d >= 2 * d;
    } else {
      assert d == 0 || d == 1;
    }
  }

  /** The sum Palette.Index minimises: the sqDiff of all four channels. It
      never reaches MaxUint32, so the uint32 sum does not wrap and the first
      slot always beats the starting best. */
  function Distance(x: Colour, y: Colour): (d: nat)
    ensures d < MaxUint32
    ensures d == 0 <==> Near(x, y)
  {
    SqDiff(x.r, y.r) + SqDiff(x.g, y.g) + SqDiff(x.b, y.b) + SqDiff(x.a, y.a)
  }

  /** Slot i is at the least distance from c, and every earlier slot is
      strictly further away. */
  predicate FirstNearest(p: Palette, c: Colour, i: nat) {
    && i < |p|
    && (forall j :: 0 <= j < |p| ==> Distance(c, p[i]) <= Distance(c, p[j]))
    && (forall j :: 0 <= j < i ==> Distance(c, p[i]) < Distance(c, p[j]))
  }

  /** The loop of Palette.Index from slot i on, with the best slot and best
      distance found so far: it returns at the first slot at distance 0 and
      otherwise keeps the first slot of strictly least distance. */
  function IndexScan(p: Palette, c: Colour, i: nat, ret: nat, best: nat): (slot: nat)
    requires 0 < |p| && i <= |p|
    requires i == 0 ==> ret == 0 && best == MaxUint32
    requires i > 0 ==> ret < i && best == Distance(c, p[ret]) && best > 0
    requires forall k :: 0 <= k < i ==> best <= Distance(c, p[k])
    requires forall k :: 0 <= k < ret ==> best < Distance(c, p[k])
    ensures FirstNearest(p, c, slot)
    decreases |p| - i
  {
    if i == |p| then ret
    else
      var sum := Distance(c, p[i]);
      if sum == 0 then i
      else if sum < best then IndexScan(p, c, i + 1, i, sum)
      else IndexScan(p, c, i + 1, ret, best)
  }

  /** color.Palette.Index on a non-empty palette. */
  function Index(p: Palette, c: Colour): (slot: nat)
    requires 0 < |p|
    ensures FirstNearest(p, c, slot)
  {
    IndexScan(p, c, 0, 0, MaxUint32)
  }

  /** FirstNearest pins the slot down: no two slots satisfy it. */
  lemma FirstNearestUnique(p: Palette, c: Colour, i: nat, j: nat)
    requires FirstNearest(p, c, i) && FirstNearest(p, c, j)
    ensures i == j
  {
    var di, dj := Distance(c, p[i]), Distance(c, p[j]);
    assert i < j ==> dj < di;
    assert j < i ==> di < dj;
  }

  /** A colour held by the palette gets a slot at distance 0 from it, at or
      before the first slot holding it, and exactly that slot unless an
      earlier slot holds a colour within 1 on every channel. */
  lemma IndexOfPresent(p: Palette, c: Colour)
    requires c in p
    ensures Near(c, p[Index(p, c)])
    ensures Index(p, c) <= FirstIndex(p, c)
    ensures (forall k :: 0 <= k < FirstIndex(p, c) ==> !Near(c, p[k])) ==> Index(p, c) == FirstIndex(p, c)
  {
    var f := FirstIndex(p, c);
    var s := Index(p, c);
    assert Distance(c, p[f]) == 0;
    assert Distance(c, p[s]) == 0;
  }

  /** A colour one step away from an earlier slot's colour in one channel is
      indexed at that earlier slot, not at the slot holding it exactly. */
  lemma NearHitWins()
    ensures Index([Colour(0, 0, 0, 0xFFFF), Colour(1, 0, 0, 0xFFFF)], Colour(1, 0, 0, 0xFFFF)) == 0
  {
    var p := [Colour(0, 0, 0, 0xFFFF), Colour(1, 0, 0, 0xFFFF)];
    assert Distance(Colour(1, 0, 0, 0xFFFF), p[0]) == 0;
  }
}
