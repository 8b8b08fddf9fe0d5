/** Packing 64 pixel indices into the 16-byte two-bitplane tile format
    (pictotile.go lines 153-154 and 233-245), and its inverse. */
module Bitplanes {

  type Byte = bv8

  /** Bit `pos` of a byte (0 = least significant), as 0 or 1. */
  function Bit(v: Byte, pos: nat): (b: Byte)
    requires pos < 8
    ensures b == 0 || b == 1
  {
    (v >> pos) & 1
  }

  /** The contribution of one index to bitplane `plane`: its low bit for plane
      0 (`& 1`), its high bit for plane 1 (`& 2 >> 1`). */
  function PlaneBit(index: Byte, plane: nat): (b: Byte)
    requires plane < 2
    ensures b == Bit(index, plane)
  {
    if plane == 0 then index & 1 else (index & 2) >> 1
  }

  /** One bitplane byte of a row, after the inner loop has OR-ed in columns
      0..k-1; column n lands in bit 7-n, so column 0 is the most significant. */
  function PlaneByte(row: seq<Byte>, plane: nat, k: nat): (v: Byte)
    requires plane < 2 && k <= |row| && k <= 8
    ensures forall n :: 0 <= n < k ==> Bit(v, 7 - n) == PlaneBit(row[n], plane)
    ensures forall pos :: 0 <= pos < 8 - k ==> Bit(v, pos) == 0
  {
    if k == 0 then 0
    else
      var w := PlaneByte(row, plane, k - 1);
      PlaneByteStep(row, plane, k, w);
      (PlaneBit(row[k - 1], plane) << (8 - k)) | w
  }

  /** One turn of the inner loop ORs column k-1 in at bit 8-k. That writes the
      column's bit, keeps the bits already written, and keeps the bits below
      clear. */
  lemma PlaneByteStep(row: seq<Byte>, plane: nat, k: nat, w: Byte)
    requires plane < 2 && 0 < k <= |row| && k <= 8
    requires forall n :: 0 <= n < k - 1 ==> Bit(w, 7 - n) == PlaneBit(row[n], plane)
    requires forall pos :: 0 <= pos < 9 - k ==> Bit(w, pos) == 0
    ensures var v := (PlaneBit(row[k - 1], plane) << (8 - k)) | w;
            && (forall n :: 0 <= n < k ==> Bit(v, 7 - n) == PlaneBit(row[n], plane))
            && (forall pos :: 0 <= pos < 8 - k ==> Bit(v, pos) == 0)
  {
    var b := PlaneBit(row[k - 1], plane);
    var v := (b << (8 - k)) | w;
    StepNew(row, plane, k, b, w, v);
    StepKept(row, plane, k, b, w, v);
    StepClear(k, b, w, v);
    StepColumns(row, plane, k, v);
  }

  /** The column OR-ed in lands at bit 8-k. */
  lemma StepNew(row: seq<Byte>, plane: nat, k: nat, b: Byte, w: Byte, v: Byte)
    requires plane < 2 && 0 < k <= |row| && k <= 8
    requires b == PlaneBit(row[k - 1], plane) && v == (b << (8 - k)) | w
    requires forall pos :: 0 <= pos < 9 - k ==> Bit(w, pos) == 0
    ensures Bit(v, 8 - k) == PlaneBit(row[k - 1], plane)
  {
    assert Bit(w, 8 - k) == 0;
    StepBit(b, 8 - k, w, 8 - k);
  }

  /** The earlier columns and the new one together are the first k columns. */
  lemma StepColumns(row: seq<Byte>, plane: nat, k: nat, v: Byte)
    requires plane < 2 && 0 < k <= |row| && k <= 8
    requires Bit(v, 8 - k) == PlaneBit(row[k - 1], plane)
    requires forall n :: 0 <= n < k - 1 ==> Bit(v, 7 - n) == PlaneBit(row[n], plane)
    ensures forall n :: 0 <= n < k ==> Bit(v, 7 - n) == PlaneBit(row[n], plane)
  {
    forall n | 0 <= n < k
      ensures Bit(v, 7 - n) == PlaneBit(row[n], plane)
    {
      if n == k - 1 {
        assert 7 - n == 8 - k;
      }
    }
  }

  /** The columns already OR-ed in keep their bits. */
  lemma StepKept(row: seq<Byte>, plane: nat, k: nat, b: Byte, w: Byte, v: Byte)
    requires plane < 2 && 0 < k <= |row| && k <= 8 && b < 2
    requires v == (b << (8 - k)) | w
    requires forall n :: 0 <= n < k - 1 ==> Bit(w, 7 - n) == PlaneBit(row[n], plane)
    requires forall pos :: 0 <= pos < 9 - k ==> Bit(w, pos) == 0
    ensures forall n :: 0 <= n < k - 1 ==> Bit(v, 7 - n) == PlaneBit(row[n], plane)
  {
    assert Bit(w, 8 - k) == 0;
    forall n | 0 <= n < k - 1
      ensures Bit(v, 7 - n) == PlaneBit(row[n], plane)
    {
      StepBit(b, 8 - k, w, 7 - n);
    }
  }

  /** The bits below the one just written stay clear. */
  lemma StepClear(k: nat, b: Byte, w: Byte, v: Byte)
    requires 0 < k <= 8 && b < 2
    requires v == (b << (8 - k)) | w
    requires forall pos :: 0 <= pos < 9 - k ==> Bit(w, pos) == 0
    ensures forall pos :: 0 <= pos < 8 - k ==> Bit(v, pos) == 0
  {
    forall pos | 0 <= pos < 8 - k
      ensures Bit(v, pos) == 0
    {
      StepBit(b, 8 - k, w, pos);
    }
  }

  /** Bit pos after OR-ing bit b in at position s, when bit s was clear. */
  lemma StepBit(b: Byte, s: nat, w: Byte, pos: nat)
    requires b < 2 && s < 8 && pos < 8 && Bit(w, s) == 0
    ensures pos == s ==> Bit((b << s) | w, pos) == b
    ensures pos != s ==> Bit((b << s) | w, pos) == Bit(w, pos)
  {
    OrShiftBit(b, s, w, pos);
  }

  /** OR-ing a single bit b in at position s sets bit s to b | (old bit s)
      and leaves every other bit as it was. */
  lemma OrShiftBit(b: Byte, s: nat, w: Byte, pos: nat)
    requires b < 2 && s < 8 && pos < 8
    ensures Bit((b << s) | w, pos) == if pos == s then b | Bit(w, pos) else Bit(w, pos)
  {
  }

  /** The 16 output bytes: row i gives byte 2i (low bits) and 2i+1 (high bits). */
  function Pack(raw: seq<Byte>): (data: seq<Byte>)
    requires |raw| == 64
    ensures |data| == 16
  {
    seq(16, j requires 0 <= j < 16 => PackedByte(raw, j))
  }

  /** Output byte j: plane j % 2 of row j / 2. */
  function PackedByte(raw: seq<Byte>, j: nat): Byte
    requires |raw| == 64 && j < 16
  {
    PlaneByte(raw[8 * (j / 2)..8 * (j / 2) + 8], j % 2, 8)
  }

  /** The index a decoder reads back for row i, column n: bit 7-n of the low
      plane plus twice bit 7-n of the high plane. */
  function Unpack(data: seq<Byte>): (raw: seq<Byte>)
    requires |data| == 16
    ensures |raw| == 64
    ensures forall k :: 0 <= k < 64 ==> raw[k] < 4
  {
    seq(64, k requires 0 <= k < 64 => UnpackedIndex(data, k))
  }

  /** Index k = 8i + n, read from bit 7-n of bytes 2i and 2i+1. */
  function UnpackedIndex(data: seq<Byte>, k: nat): (index: Byte)
    requires |data| == 16 && k < 64
    ensures index < 4
  {
    Bit(data[2 * (k / 8)], 7 - k % 8) | (Bit(data[2 * (k / 8) + 1], 7 - k % 8) << 1)
  }

  /** Two bytes with the same eight bits are the same byte. */
  lemma SameBits(u: Byte, v: Byte)
    requires forall pos :: 0 <= pos < 8 ==> Bit(u, pos) == Bit(v, pos)
    ensures u == v
  {
    assert Bit(u, 0) == Bit(v, 0) && Bit(u, 1) == Bit(v, 1) && Bit(u, 2) == Bit(v, 2) && Bit(u, 3) == Bit(v, 3);
    assert Bit(u, 4) == Bit(v, 4) && Bit(u, 5) == Bit(v, 5) && Bit(u, 6) == Bit(v, 6) && Bit(u, 7) == Bit(v, 7);
  }

  /** Reading back what Pack wrote: for row i and column n the low plane holds
      bit 0 and the high plane bit 1 of the index. */
  lemma PackBits(raw: seq<Byte>, i: nat, n: nat)
    requires |raw| == 64 && i < 8 && n < 8
    ensures Bit(Pack(raw)[2 * i], 7 - n) == Bit(raw[8 * i + n], 0)
    ensures Bit(Pack(raw)[2 * i + 1], 7 - n) == Bit(raw[8 * i + n], 1)
  {
    var row := raw[8 * i..8 * i + 8];
    assert (2 * i) / 2 == i && (2 * i + 1) / 2 == i;
    assert row[n] == raw[8 * i + n];
  }

  /** Decoding a packed tile gives back every index below 4 unchanged. */
  lemma UnpackPack(raw: seq<Byte>)
    requires |raw| == 64
    requires forall k :: 0 <= k < 64 ==> raw[k] < 4
    ensures Unpack(Pack(raw)) == raw
  {
    forall k | 0 <= k < 64
      ensures Unpack(Pack(raw))[k] == raw[k]
    {
      var i, n := k / 8, k % 8;
      assert k == 8 * i + n;
      PackBits(raw, i, n);
      TwoBits(raw[k]);
    }
  }

  lemma TwoBits(v: Byte)
    requires v < 4
    ensures Bit(v, 0) | (Bit(v, 1) << 1) == v
  {
  }

  /** A plane byte whose columns carry the bits of v, most significant first, is v. */
  lemma PlaneByteOfBits(row: seq<Byte>, plane: nat, v: Byte)
    requires plane < 2 && |row| == 8
    requires forall n :: 0 <= n < 8 ==> PlaneBit(row[n], plane) == Bit(v, 7 - n)
    ensures PlaneByte(row, plane, 8) == v
  {
    var u := PlaneByte(row, plane, 8);
    forall pos | 0 <= pos < 8
      ensures Bit(u, pos) == Bit(v, pos)
    {
      assert Bit(u, 7 - (7 - pos)) == PlaneBit(row[7 - pos], plane);
    }
    SameBits(u, v);
  }

  /** Reading back what Unpack produced: bit `plane` of index 8i + n is bit
      7-n of byte 2i + plane. */
  lemma UnpackBits(data: seq<Byte>, i: nat, n: nat, plane: nat)
    requires |data| == 16 && i < 8 && n < 8 && plane < 2
    ensures PlaneBit(Unpack(data)[8 * i + n], plane) == Bit(data[2 * i + plane], 7 - n)
  {
    var k := 8 * i + n;
    assert k / 8 == i && k % 8 == n;
    var lo, hi := Bit(data[2 * i], 7 - n), Bit(data[2 * i + 1], 7 - n);
    assert Unpack(data)[k] == lo | (hi << 1);
    if plane == 0 {
      assert PlaneBit(lo | (hi << 1), 0) == lo;
    } else {
      assert PlaneBit(lo | (hi << 1), 1) == hi;
    }
  }

  /** Every 16-byte sequence is the packing of the indices it decodes to, so
      Pack is a bijection between index tiles with entries below 4 and tiles of
      16 bytes. */
  lemma PackUnpack(data: seq<Byte>)
    requires |data| == 16
    ensures Pack(Unpack(data)) == data
  {
    forall j | 0 <= j < 16
      ensures Pack(Unpack(data))[j] == data[j]
    {
      RepackByte(data, j);
    }
  }

  /** Output byte j of the repacked tile is byte j of the original. */
  lemma RepackByte(data: seq<Byte>, j: nat)
    requires |data| == 16 && j < 16
    ensures PackedByte(Unpack(data), j) == data[j]
  {
    var raw := Unpack(data);
    var i, plane := j / 2, j % 2;
    var row := raw[8 * i..8 * i + 8];
    forall n | 0 <= n < 8
      ensures PlaneBit(row[n], plane) == Bit(data[j], 7 - n)
    {
      assert row[n] == raw[8 * i + n];
      UnpackBits(data, i, n, plane);
      assert 2 * i + plane == j;
    }
    PlaneByteOfBits(row, plane, data[j]);
  }

  /** A tile whose indices are all 0 packs to 16 zero bytes. */
  lemma PackZeros(raw: seq<Byte>)
    requires |raw| == 64 && forall k :: 0 <= k < 64 ==> raw[k] == 0
    ensures |Pack(raw)| == 16 && forall j :: 0 <= j < 16 ==> Pack(raw)[j] == 0
  {
    forall j | 0 <= j < 16
      ensures Pack(raw)[j] == 0
    {
      var row := raw[8 * (j / 2)..8 * (j / 2) + 8];
      PlaneByteOfBits(row, j % 2, 0);
    }
  }
}
