/**
 The 52-byte snapshot record and the 16-byte edge record: the client's encoders, the
 daemon's decoders, and the round trips between them.
 Snapshot: version u32, seq u32, t_ms u64, mods u32, then a bitmap of 256 bits.
 Edge: seq u32, t_ms u64, usage u16, cmd u8, mods u8.  All numbers are big endian.
 */
module SnapshotCodec {
  import opened Words
  import opened KeyState

  // Bits, the lowest first

  /** The bit tested by `b & (1 << k)`. */
  predicate Bit(b: nat, k: nat) {
    if k == 0 then b % 2 == 1 else Bit(b / 2, k - 1)
  }

  /** The number made by `b | (1 << k)`. */
  function SetBit(b: nat, k: nat): nat {
    if k == 0 then (if b % 2 == 1 then b else b + 1) else b % 2 + 2 * SetBit(b / 2, k - 1)
  }

  lemma {:induction false} SetBitSets(b: nat, k: nat, j: nat)
    ensures Bit(SetBit(b, k), j) <==> j == k || Bit(b, j)
  {
    if k == 0 {
      if j > 0 {
        assert SetBit(b, 0) / 2 == b / 2;
      }
    } else {
      var r := SetBit(b / 2, k - 1);
      assert SetBit(b, k) / 2 == r && SetBit(b, k) % 2 == b % 2;
      if j > 0 {
        SetBitSets(b / 2, k - 1, j - 1);
      }
    }
  }

  lemma {:induction false} ZeroHasNoBits(k: nat)
    ensures !Bit(0, k)
  {
    if k > 0 {
      ZeroHasNoBits(k - 1);
    }
  }

  // At most `width` bits in, at most `width` bits out.
  lemma {:induction false} SetBitWidth(b: nat, k: nat, width: nat)
    requires k < width && b < Pow2(width)
    ensures SetBit(b, k) < Pow2(width)
  {
    var half := Pow2(width - 1);
    assert Pow2(width) == 2 * half;
    if k > 0 {
      assert b / 2 < half;
      SetBitWidth(b / 2, k - 1, width - 1);
    }
  }

  function Pow2(k: nat): nat {
    if k == 0 then 1 else 2 * Pow2(k - 1)
  }

  lemma SetBitOfByte(b: Byte, k: nat)
    requires k < 8
    ensures SetBit(b, k) < 256
  {
    assert Pow2(4) == 16;
    assert Pow2(8) == 256;
    SetBitWidth(b, k, 8);
  }

  // Big-endian numbers

  /** The number that shifting in one byte after the other builds up. */
  function FromBigEndian(b: seq<Byte>): nat {
    if b == [] then 0 else FromBigEndian(b[..|b| - 1]) * 256 + b[|b| - 1]
  }

  /** The daemon's loop over the bytes of a number; 32 and 64 bits are enough for 4 and 8 of them. */
  method ReadBigEndian(p: seq<Byte>) returns (v: nat)
    ensures v == FromBigEndian(p) && v < Pow256(|p|)
    ensures |p| == 2 ==> v < 0x1_0000
    ensures |p| == 4 ==> v < 0x1_0000_0000
    ensures |p| == 8 ==> v < 0x1_0000_0000_0000_0000
  {
    v := 0;
    for i := 0 to |p|
      invariant v == FromBigEndian(p[..i])
    {
      assert p[..i + 1][..i] == p[..i];
      v := v * 256 + p[i];
    }
    assert p[..|p|] == p;
    FitsWidth(p);
    Powers();
  }

  function ToBigEndian(n: nat, width: nat): (b: seq<Byte>)
    ensures |b| == width
  {
    if width == 0 then [] else ToBigEndian(n / 256, width - 1) + [n % 256]
  }

  function Pow256(k: nat): nat {
    if k == 0 then 1 else 256 * Pow256(k - 1)
  }

  lemma {:induction false} BigEndianRoundTrip(n: nat, width: nat)
    requires n < Pow256(width)
    ensures FromBigEndian(ToBigEndian(n, width)) == n
  {
    if width > 0 {
      BigEndianRoundTrip(n / 256, width - 1);
      assert ToBigEndian(n, width)[..width - 1] == ToBigEndian(n / 256, width - 1);
    }
  }

  lemma Powers()
    ensures Pow256(1) == 0x100 && Pow256(2) == 0x1_0000 && Pow256(4) == 0x1_0000_0000
    ensures Pow256(8) == 0x1_0000_0000_0000_0000
  {
    assert Pow256(3) == 0x100_0000;
    assert Pow256(6) == 0x1_0000_0000_0000;
  }

  // The bitmap

  type Bitmap = b: seq<Byte> | |b| == 32 witness seq(32, _ => 0)

  predicate BitmapHas(b: Bitmap, u: Byte) {
    Bit(b[u / 8], u % 8)
  }

  /** What the client's loop does for one element of its set. */
  function BitmapWith(b: Bitmap, u: int): Bitmap {
    if 0 <= u < 256 then SetBitOfByte(b[u / 8], u % 8); b[u / 8 := SetBit(b[u / 8], u % 8)] else b
  }

  lemma BitmapWithHas(b: Bitmap, u: int, v: Byte)
    ensures BitmapHas(BitmapWith(b, u), v) <==> v == u || BitmapHas(b, v)
  {
    if 0 <= u < 256 {
      SetBitSets(b[u / 8], u % 8, v % 8);
    }
  }

  /**
   The client's bitmap_from_pressed.  It walks its set in whatever order the set yields,
   and the bitmap has exactly the bits of the elements in 0..255.
   */
  method BitmapFromPressed(pressed: set<int>) returns (b: Bitmap)
    ensures forall u: Byte :: BitmapHas(b, u) <==> u in pressed
  {
    b := seq(32, _ => 0);
    forall u: Byte
      ensures !BitmapHas(b, u)
    {
      ZeroHasNoBits(u % 8);
    }
    var todo := pressed;
    while todo != {}
      invariant todo <= pressed
      invariant forall u: Byte :: BitmapHas(b, u) <==> u in pressed - todo
    {
      ghost var some := Element(todo);
      var u :| u in todo;
      forall v: Byte
        ensures BitmapHas(BitmapWith(b, u), v) <==> v == u || BitmapHas(b, v)
      {
        BitmapWithHas(b, u, v);
      }
      b := BitmapWith(b, u);
      todo := todo - {u};
    }
  }

  // A bitmap is known by its bits.
  lemma {:induction false} SameBits(a: nat, b: nat, width: nat)
    requires a < Pow2(width) && b < Pow2(width)
    requires forall k: nat | k < width :: Bit(a, k) <==> Bit(b, k)
    ensures a == b
  {
    if width > 0 {
      assert Bit(a, 0) <==> Bit(b, 0);
      forall k: nat | k < width - 1
        ensures Bit(a / 2, k) <==> Bit(b / 2, k)
      {
        assert Bit(a, k + 1) <==> Bit(b, k + 1);
      }
      SameBits(a / 2, b / 2, width - 1);
    }
  }

  /** There is one bitmap for each key set, so the order of insertion does not show. */
  lemma BitmapIsUnique(a: Bitmap, b: Bitmap)
    requires forall u: Byte :: BitmapHas(a, u) <==> BitmapHas(b, u)
    ensures a == b
  {
    assert Pow2(4) == 16;
    assert Pow2(8) == 256;
    forall i | 0 <= i < 32
      ensures a[i] == b[i]
    {
      forall k: nat | k < 8
        ensures Bit(a[i], k) <==> Bit(b[i], k)
      {
        var u: Byte := 8 * i + k;
        assert u / 8 == i && u % 8 == k;
        assert BitmapHas(a, u) <==> BitmapHas(b, u);
      }
      SameBits(a[i], b[i], 8);
    }
  }

  // The client's records

  datatype ClientSnapshot = ClientSnapshot(keys: set<int>, mods: U32, version: U32, seqNo: U32, tMs: U64)

  /** The client's build_snapshot, on a bitmap. */
  function BuildSnapshot(bitmap: Bitmap, mods: U32, version: U32, seqNo: U32, tMs: U64): (r: seq<Byte>)
    ensures |r| == 52
  {
    ToBigEndian(version, 4) + ToBigEndian(seqNo, 4) + ToBigEndian(tMs, 8) + ToBigEndian(mods, 4) + bitmap
  }

  ghost predicate EncodesSnapshot(r: seq<Byte>, c: ClientSnapshot) {
    exists b: Bitmap ::
      && (forall u: Byte :: BitmapHas(b, u) <==> u in c.keys)
      && r == BuildSnapshot(b, c.mods, c.version, c.seqNo, c.tMs)
  }

  /** What the client sends for its key set. */
  method EncodeSnapshot(c: ClientSnapshot) returns (r: seq<Byte>)
    ensures EncodesSnapshot(r, c)
  {
    var bits := BitmapFromPressed(c.keys);
    r := BuildSnapshot(bits, c.mods, c.version, c.seqNo, c.tMs);
  }

  /** What the daemon's decoder finds in a record of at least 52 bytes. */
  function DecodeMods(data: seq<Byte>): Byte
    requires |data| >= 52
  {
    FromBigEndian(data[16..20]) % 256
  }

  function DecodeKeys(data: seq<Byte>): HidKeys
    requires |data| >= 52
  {
    set u: Byte | IsKeyboardUsage(u) && Bit(data[20 + u / 8], u % 8)
  }

  /** Where the client puts what: every number with its highest byte first, then the bitmap. */
  lemma SnapshotLayout(bitmap: Bitmap, mods: U32, version: U32, seqNo: U32, tMs: U64)
    ensures
      var r := BuildSnapshot(bitmap, mods, version, seqNo, tMs);
      && FromBigEndian(r[..4]) == version && FromBigEndian(r[4..8]) == seqNo
      && FromBigEndian(r[8..16]) == tMs && FromBigEndian(r[16..20]) == mods && r[20..] == bitmap
  {
    var r := BuildSnapshot(bitmap, mods, version, seqNo, tMs);
    assert r[..4] == ToBigEndian(version, 4);
    assert r[4..8] == ToBigEndian(seqNo, 4);
    assert r[8..16] == ToBigEndian(tMs, 8);
    assert r[16..20] == ToBigEndian(mods, 4);
    Powers();
    BigEndianRoundTrip(version, 4);
    BigEndianRoundTrip(seqNo, 4);
    BigEndianRoundTrip(tMs, 8);
    BigEndianRoundTrip(mods, 4);
  }

  /** The modifiers are the last byte before the bitmap. */
  lemma ModsAreLowByte(data: seq<Byte>)
    requires |data| >= 52
    ensures DecodeMods(data) == data[19]
  {
    var p := data[16..20];
    assert FromBigEndian(p) == FromBigEndian(p[..3]) * 256 + p[3];
    assert p[3] == data[19];
  }

  /** The eight bits of a byte, each worth twice the one before it. */
  lemma BitsOfByte(b: Byte)
    ensures b == Worth(b, 0, 1) + Worth(b, 1, 2) + Worth(b, 2, 4) + Worth(b, 3, 8) +
                 Worth(b, 4, 16) + Worth(b, 5, 32) + Worth(b, 6, 64) + Worth(b, 7, 128)
  {
    hide Bit;
    FourBits(b);
    FourBits(b / 16);
    FourDown(b, 0);
    FourDown(b, 1);
    FourDown(b, 2);
    FourDown(b, 3);
  }

  lemma FourBits(b: nat)
    ensures b % 16 == (if Bit(b, 0) then 1 else 0) + (if Bit(b, 1) then 2 else 0) +
                      (if Bit(b, 2) then 4 else 0) + (if Bit(b, 3) then 8 else 0)
  {
    hide Bit;
    TwoBits(b);
    TwoBits(b / 4);
    TwoDown(b, 0);
    TwoDown(b, 1);
    assert b % 16 == b % 4 + 4 * (b / 4 % 4);
  }

  lemma TwoBits(b: nat)
    ensures b % 4 == (if Bit(b, 0) then 1 else 0) + (if Bit(b, 1) then 2 else 0)
  {
    assert Bit(b, 1) == Bit(b / 2, 0);
    assert b % 4 == b % 2 + 2 * (b / 2 % 2);
  }

  lemma TwoDown(b: nat, k: nat)
    ensures Bit(b, k + 2) == Bit(b / 4, k)
  {
    assert Bit(b, k + 2) == Bit(b / 2, k + 1) == Bit(b / 2 / 2, k);
    assert b / 2 / 2 == b / 4;
  }

  lemma FourDown(b: nat, k: nat)
    ensures Bit(b, k + 4) == Bit(b / 16, k)
  {
    TwoDown(b, k + 2);
    TwoDown(b / 4, k);
    assert b / 4 / 4 == b / 16;
  }

  function Worth(b: Byte, k: nat, worth: nat): nat {
    if Bit(b, k) then worth else 0
  }

  /** The keys that survive the trip: those that are keyboard usages. */
  function OnKeyboard(keys: set<int>): HidKeys {
    set u: Byte | IsKeyboardUsage(u) && u in keys
  }

  /** Every snapshot the client can build decodes to its keyboard keys and its low eight modifiers. */
  lemma SnapshotRoundTrip(r: seq<Byte>, c: ClientSnapshot)
    requires EncodesSnapshot(r, c)
    ensures |r| == 52
    ensures DecodeKeys(r) == OnKeyboard(c.keys)
    ensures forall u: Byte :: u in DecodeKeys(r) <==> u in c.keys && 0x04 <= u <= 0xA5
    ensures DecodeMods(r) == c.mods % 256
  {
    var b: Bitmap :| (forall u: Byte :: BitmapHas(b, u) <==> u in c.keys)
      && r == BuildSnapshot(b, c.mods, c.version, c.seqNo, c.tMs);
    assert r[16..20] == ToBigEndian(c.mods, 4);
    assert r[20..] == b;
    Powers();
    BigEndianRoundTrip(c.mods, 4);
    forall u: Byte
      ensures Bit(r[20 + u / 8], u % 8) <==> u in c.keys
    {
      assert r[20 + u / 8] == r[20..][u / 8];
      assert BitmapHas(b, u) <==> u in c.keys;
    }
  }

  // Edge records

  datatype EdgeRecord = EdgeRecord(seqNo: U32, tMs: U64, usage: U16, cmd: Byte, mods: Byte)

  /** The baseline client's struct.pack of "!IQHBB". */
  function PackEdge(e: EdgeRecord): (r: seq<Byte>)
    ensures |r| == 16
  {
    ToBigEndian(e.seqNo, 4) + ToBigEndian(e.tMs, 8) + ToBigEndian(e.usage, 2) + [e.cmd] + [e.mods]
  }

  /** The daemon's reading of the same 16 bytes. */
  function UnpackEdge(data: seq<Byte>): EdgeRecord
    requires |data| >= 16
  {
    FitsWidth(data[..4]);
    FitsWidth(data[4..12]);
    FitsWidth(data[12..14]);
    Powers();
    EdgeRecord(FromBigEndian(data[..4]), FromBigEndian(data[4..12]), FromBigEndian(data[12..14]), data[14], data[15])
  }

  lemma {:induction false} FitsWidth(b: seq<Byte>)
    ensures FromBigEndian(b) < Pow256(|b|)
  {
    if b != [] {
      FitsWidth(b[..|b| - 1]);
    }
  }

  lemma EdgeRoundTrip(e: EdgeRecord)
    ensures UnpackEdge(PackEdge(e)) == e
  {
    var r := PackEdge(e);
    assert r[..4] == ToBigEndian(e.seqNo, 4);
    assert r[4..12] == ToBigEndian(e.tMs, 8);
    assert r[12..14] == ToBigEndian(e.usage, 2);
    Powers();
    BigEndianRoundTrip(e.seqNo, 4);
    BigEndianRoundTrip(e.tMs, 8);
    BigEndianRoundTrip(e.usage, 2);
  }

  /** Any sixteen bytes are the record of exactly one edge. */
  lemma EdgeRoundTripBack(data: seq<Byte>)
    requires |data| == 16
    ensures PackEdge(UnpackEdge(data)) == data
  {
    BytesRoundTrip(data[..4]);
    BytesRoundTrip(data[4..12]);
    BytesRoundTrip(data[12..14]);
    assert data == data[..4] + data[4..12] + data[12..14] + [data[14]] + [data[15]];
  }

  lemma {:induction false} BytesRoundTrip(b: seq<Byte>)
    ensures ToBigEndian(FromBigEndian(b), |b|) == b
  {
    if b != [] {
      var n := |b| - 1;
      BytesRoundTrip(b[..n]);
      assert b == b[..n] + [b[n]];
    }
  }
}
