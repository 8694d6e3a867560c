/** The packed records of frat.h as bytes. */
module Codec {
  import opened Arith
  import opened ClusterMap
  import opened Layout
  import opened FileStore
  import opened Files

  /** The w low bytes of n, least significant first. */
  function Le(n: nat, w: nat): (r: seq<byte>)
    ensures |r| == w
    decreases w
  {
    if w == 0 then [] else [n % 256] + Le(n / 256, w - 1)
  }

  function FromLe(b: seq<byte>): nat
  {
    if b == [] then 0 else b[0] + 256 * FromLe(b[1..])
  }

  function Power256(w: nat): nat
  {
    if w == 0 then 1 else 256 * Power256(w - 1)
  }

  lemma {:induction false} LeRoundTrip(n: nat, w: nat)
    requires n < Power256(w)
    ensures FromLe(Le(n, w)) == n
    decreases w
  {
    if w > 0 {
      LeRoundTrip(n / 256, w - 1);
      assert Le(n, w)[1..] == Le(n / 256, w - 1);
    }
  }

  lemma {:induction false} LeOfBytes(b: seq<byte>)
    ensures Le(FromLe(b), |b|) == b && FromLe(b) < Power256(|b|)
  {
    if b != [] {
      var x, p := FromLe(b[1..]), Power256(|b| - 1);
      LeOfBytes(b[1..]);
      LowByte(b[0], x, p);
      assert b == [b[0]] + b[1..];
    }
  }

  lemma LowByte(d: byte, x: nat, p: nat)
    requires x < p
    ensures (d + 256 * x) % 256 == d && (d + 256 * x) / 256 == x && d + 256 * x < 256 * p
  {
    DivIs(d + 256 * x, 256, x, d);
  }

  lemma {:induction false} FromLeZero(b: seq<byte>)
    requires forall i :: 0 <= i < |b| ==> b[i] == 0
    ensures FromLe(b) == 0
  {
    if b != [] {
      FromLeZero(b[1..]);
    }
  }

  lemma Powers()
    ensures Power256(2) == 0x1_0000 && Power256(4) == TWO_32
    ensures Power256(6) == 0x1_0000_0000_0000 && Power256(8) == TWO_64
  {
    assert Power256(3) == 256 * 0x1_0000;
    assert Power256(5) == 256 * TWO_32;
    assert Power256(7) == 256 * 0x1_0000_0000_0000;
  }

  // ---------------------------------------------------------------- slots

  function SlotBytes(s: Slot): (r: seq<byte>)
    ensures |r| == SLOT_SIZE
  {
    Le(s.code.low, 8) + Le(s.code.high, 6) + Le(s.attrs as int, 2) + Le(s.index, 4)
  }

  function ParseSlot(b: seq<byte>): Slot
    requires |b| == SLOT_SIZE
  {
    Slot(Fcode(FromLe(b[..8]), FromLe(b[8..14])), (FromLe(b[14..16]) % 0x1_0000) as bv16, FromLe(b[16..]))
  }

  lemma SlotParts(a: seq<byte>, b: seq<byte>, c: seq<byte>, d: seq<byte>, r: seq<byte>)
    requires |a| == 8 && |b| == 6 && |c| == 2 && |d| == 4 && r == a + b + c + d
    ensures |r| == SLOT_SIZE && r[..8] == a && r[8..14] == b && r[14..16] == c && r[16..] == d
  {
  }

  lemma AttrsFit(attrs: bv16)
    ensures (attrs as int) < 0x1_0000
  {
  }

  lemma AttrsRoundTrip(attrs: bv16, n: nat)
    requires n == attrs as int && n < 0x1_0000
    ensures (n % 0x1_0000) as bv16 == attrs
  {
    Small(n);
  }

  lemma Small(n: nat)
    requires n < 0x1_0000
    ensures n % 0x1_0000 == n
  {
  }

  /** A field of w bytes, packed and parsed. */
  lemma FieldRoundTrip(n: nat, w: nat, b: seq<byte>)
    requires n < Power256(w) && b == Le(n, w)
    ensures |b| == w && FromLe(b) == n
  {
    LeRoundTrip(n, w);
  }

  /** A slot whose fields fit their bit-fields survives packing. */
  lemma SlotRoundTrip(s: Slot, r: seq<byte>)
    requires ClusterMap.Fits(s.code) && s.index < TWO_32 && r == SlotBytes(s)
    ensures |r| == SLOT_SIZE && ParseSlot(r) == s
  {
    hide Le, FromLe, Power256, ClusterMap.Fits;
    var n := s.attrs as int;
    AttrsFit(s.attrs);
    SlotFields(s, r, n);
    AttrsRoundTrip(s.attrs, n);
  }

  lemma SlotFields(s: Slot, r: seq<byte>, n: nat)
    requires ClusterMap.Fits(s.code) && s.index < TWO_32 && n < 0x1_0000
    requires r == Le(s.code.low, 8) + Le(s.code.high, 6) + Le(n, 2) + Le(s.index, 4)
    ensures |r| == SLOT_SIZE && FromLe(r[..8]) == s.code.low && FromLe(r[8..14]) == s.code.high
    ensures FromLe(r[14..16]) == n && FromLe(r[16..]) == s.index
  {
    Powers();
    var a, b, c, d := Le(s.code.low, 8), Le(s.code.high, 6), Le(n, 2), Le(s.index, 4);
    SlotParts(a, b, c, d, r);
    FieldRoundTrip(s.code.low, 8, a);
    FieldRoundTrip(s.code.high, 6, b);
    FieldRoundTrip(n, 2, c);
    FieldRoundTrip(s.index, 4, d);
  }

  /** A 16-bit and a 32-bit number, least significant byte first. */
  function Word16(a: int, b: int): int { a + 0x100 * b }

  function Word32(a: int, b: int, c: int, d: int): int { a + 0x100 * b + 0x1_0000 * c + 0x100_0000 * d }

  lemma FromLe2(b: seq<byte>)
    requires |b| == 2
    ensures FromLe(b) == Word16(b[0], b[1])
  {
    assert FromLe(b[1..]) == b[1] + 256 * FromLe(b[1..][1..]);
  }

  lemma ShiftByte(x: nat, p: nat, y: nat)
    ensures 256 * (x + p * y) == 256 * x + (256 * p) * y
  {
  }

  lemma {:induction false} FromLeSplit(b: seq<byte>, k: nat)
    requires k <= |b|
    ensures FromLe(b) == FromLe(b[..k]) + Power256(k) * FromLe(b[k..])
  {
    if k > 0 {
      FromLeSplit(b[1..], k - 1);
      assert b[1..][..k - 1] == b[..k][1..] && b[1..][k - 1..] == b[k..];
      ShiftByte(FromLe(b[..k][1..]), Power256(k - 1), FromLe(b[k..]));
    } else {
      assert b[0..] == b;
    }
  }

  lemma FromLe4(b: seq<byte>)
    requires |b| == 4
    ensures FromLe(b) == Word32(b[0], b[1], b[2], b[3])
  {
    Powers();
    FromLeSplit(b, 2);
    FromLe2(b[..2]);
    FromLe2(b[2..]);
  }

  lemma FromLe6(b: seq<byte>)
    requires |b| == 6
    ensures FromLe(b) == Word32(b[0], b[1], b[2], b[3]) + TWO_32 * Word16(b[4], b[5])
  {
    Powers();
    FromLeSplit(b, 4);
    FromLe4(b[..4]);
    FromLe2(b[4..]);
  }

  lemma FromLe8(b: seq<byte>)
    requires |b| == 8
    ensures FromLe(b) == Word32(b[0], b[1], b[2], b[3]) + TWO_32 * Word32(b[4], b[5], b[6], b[7])
  {
    Powers();
    FromLeSplit(b, 4);
    FromLe4(b[..4]);
    FromLe4(b[4..]);
  }

  /** The record of a slot byte by byte: code in 8 and 6 bytes, attributes in 2, index in 4, each of them least
      significant byte first. */
  lemma SlotLayout(s: Slot, r: seq<byte>)
    requires ClusterMap.Fits(s.code) && s.index < TWO_32 && r == SlotBytes(s)
    ensures |r| == 20
    ensures s.code.low == Word32(r[0], r[1], r[2], r[3]) + TWO_32 * Word32(r[4], r[5], r[6], r[7])
    ensures s.code.high == Word32(r[8], r[9], r[10], r[11]) + TWO_32 * Word16(r[12], r[13])
    ensures s.attrs as int == Word16(r[14], r[15]) && s.index == Word32(r[16], r[17], r[18], r[19])
  {
    hide Le, FromLe, Power256, ClusterMap.Fits, Word16, Word32;
    var n := s.attrs as int;
    AttrsFit(s.attrs);
    SlotFields(s, r, n);
    FromLe8(r[..8]);
    FromLe6(r[8..14]);
    FromLe2(r[14..16]);
    FromLe4(r[16..]);
  }

  lemma ParseBlank(b: seq<byte>)
    requires |b| == SLOT_SIZE && forall i :: 0 <= i < |b| ==> b[i] == 0
    ensures ParseSlot(b) == BLANK
  {
    FromLeZero(b[..8]);
    FromLeZero(b[8..14]);
    FromLeZero(b[14..16]);
    FromLeZero(b[16..]);
  }

  // ---------------------------------------------------------------- the map

  function Records(m: Slots): (r: seq<seq<byte>>)
    ensures |r| == |m| && Blocky(r, SLOT_SIZE)
    ensures forall k :: 0 <= k < |m| ==> r[k] == SlotBytes(m[k])
  {
    seq(|m|, k requires 0 <= k < |m| => SlotBytes(m[k]))
  }

  function MapBytes(m: Slots): seq<byte> { Flat(Records(m)) }

  function ParseMap(b: seq<byte>, n: nat): (m: Slots)
    requires n * SLOT_SIZE <= |b|
    ensures |m| == n
  {
    seq(n, k requires 0 <= k < n => ParseSlot(b[k * SLOT_SIZE..k * SLOT_SIZE + SLOT_SIZE]))
  }

  lemma ParseMapAt(b: seq<byte>, n: nat, k: nat, s: nat)
    requires n * SLOT_SIZE <= |b| && k < n && s == k * SLOT_SIZE
    ensures s + SLOT_SIZE <= |b| && ParseMap(b, n)[k] == ParseSlot(b[s..s + SLOT_SIZE])
  {
    hide ParseSlot;
  }

  /** Record k of the packed map. */
  lemma RecordAt(m: Slots, rest: seq<byte>, k: nat, s: nat)
    requires k < |m| && s == k * SLOT_SIZE && |MapBytes(m)| == |m| * SLOT_SIZE
    ensures s + SLOT_SIZE <= |MapBytes(m)| && (MapBytes(m) + rest)[s..s + SLOT_SIZE] == SlotBytes(m[k])
  {
    SpanIs(k, SLOT_SIZE);
    FlatSlice(Records(m), k, 0, SLOT_SIZE, s, SLOT_SIZE);
    SliceOfFirst(MapBytes(m), rest, s, s + SLOT_SIZE);
    WholeSlice(Records(m)[k], 0 + SLOT_SIZE);
  }

  lemma SliceOfFirst(a: seq<byte>, b: seq<byte>, s: nat, e: nat)
    requires s <= e <= |a|
    ensures (a + b)[s..e] == a[s..e]
  {
  }

  lemma WholeSlice(a: seq<byte>, n: nat)
    requires n == |a|
    ensures a[0..n] == a
  {
  }

  lemma MapBytesLength(m: Slots)
    ensures |MapBytes(m)| == |m| * SLOT_SIZE
  {
    FlatLength(Records(m), SLOT_SIZE);
    SpanIs(|m|, SLOT_SIZE);
  }

  /** The whole map survives packing, whatever follows it in the buffer. */
  lemma MapRoundTrip(m: Slots, rest: seq<byte>, b: seq<byte>)
    requires Sized(m) && b == MapBytes(m) + rest
    ensures |MapBytes(m)| == |m| * SLOT_SIZE && ParseMap(b, |m|) == m
  {
    hide MapBytes, ParseMap, Sized;
    MapBytesLength(m);
    forall k | 0 <= k < |m|
      ensures ParseMap(b, |m|)[k] == m[k]
    {
      SlotBack(m, rest, b, k, k * SLOT_SIZE);
    }
  }

  lemma SlotBack(m: Slots, rest: seq<byte>, b: seq<byte>, k: nat, s: nat)
    requires Sized(m) && b == MapBytes(m) + rest && k < |m| && s == k * SLOT_SIZE
    requires |MapBytes(m)| == |m| * SLOT_SIZE
    ensures ParseMap(b, |m|)[k] == m[k]
  {
    hide MapBytes, ParseMap, SlotBytes, ParseSlot, ClusterMap.Fits;
    RecordAt(m, rest, k, s);
    ParseMapAt(b, |m|, k, s);
    assert At(m, k);
    SlotRoundTrip(m[k], SlotBytes(m[k]));
  }

  lemma ParseEmpty(b: seq<byte>, n: nat)
    requires n * SLOT_SIZE <= |b| && forall i :: 0 <= i < |b| ==> b[i] == 0
    ensures ParseMap(b, n) == Empty(n)
  {
    forall k | 0 <= k < n
      ensures ParseMap(b, n)[k] == BLANK
    {
      ParseMapAt(b, n, k, k * SLOT_SIZE);
      ParseBlank(b[k * SLOT_SIZE..k * SLOT_SIZE + SLOT_SIZE]);
    }
  }

  // ---------------------------------------------------------------- the root

  datatype Root = Root(signature: seq<byte>, logSectors: nat, blockSize: nat, clusterSize: nat,
                       major: nat, minor: nat, extension: seq<byte>)

  /** "FRAT_FILESYSTEM" with its terminator. */
  const SIGNATURE: seq<byte> := [70, 82, 65, 84, 95, 70, 73, 76, 69, 83, 89, 83, 84, 69, 77, 0]

  ghost predicate RootFits(r: Root)
  {
    && |r.signature| == 16 && |r.extension| == 24
    && r.logSectors < TWO_32 && r.blockSize < TWO_32 && r.clusterSize < TWO_32
    && r.major < TWO_32 && r.minor < TWO_32
  }

  function RootBytes(r: Root): (b: seq<byte>)
    requires RootFits(r)
    ensures |b| == ROOT_SIZE
  {
    r.signature + Le(r.logSectors, 4) + Le(r.blockSize, 4) + Le(r.clusterSize, 4)
    + Le(r.major, 4) + Le(r.minor, 4) + r.extension
  }

  function ParseRoot(b: seq<byte>): Root
    requires |b| == ROOT_SIZE
  {
    Root(b[..16], FromLe(b[16..20]), FromLe(b[20..24]), FromLe(b[24..28]),
         FromLe(b[28..32]), FromLe(b[32..36]), b[36..])
  }

  lemma RootParts(sig: seq<byte>, a: seq<byte>, b: seq<byte>, c: seq<byte>, d: seq<byte>, e: seq<byte>,
                  x: seq<byte>, r: seq<byte>)
    requires |sig| == 16 && |a| == 4 && |b| == 4 && |c| == 4 && |d| == 4 && |e| == 4 && |x| == 24
    requires r == sig + a + b + c + d + e + x
    ensures |r| == ROOT_SIZE && r[..16] == sig && r[16..20] == a && r[20..24] == b && r[24..28] == c
    ensures r[28..32] == d && r[32..36] == e && r[36..] == x
  {
  }

  lemma RootRoundTrip(r: Root, bytes: seq<byte>)
    requires RootFits(r) && bytes == RootBytes(r)
    ensures ParseRoot(bytes) == r
  {
    Powers();
    var a, b, c, d, e := Le(r.logSectors, 4), Le(r.blockSize, 4), Le(r.clusterSize, 4), Le(r.major, 4), Le(r.minor, 4);
    RootParts(r.signature, a, b, c, d, e, r.extension, bytes);
    FieldRoundTrip(r.logSectors, 4, a);
    FieldRoundTrip(r.blockSize, 4, b);
    FieldRoundTrip(r.clusterSize, 4, c);
    FieldRoundTrip(r.major, 4, d);
    FieldRoundTrip(r.minor, 4, e);
  }

  /** The root record byte by byte. */
  lemma RootLayout(r: Root, b: seq<byte>)
    requires RootFits(r) && b == RootBytes(r)
    ensures |b| == 60 && b[..16] == r.signature && b[36..] == r.extension
    ensures r.logSectors == Word32(b[16], b[17], b[18], b[19]) && r.blockSize == Word32(b[20], b[21], b[22], b[23])
    ensures r.clusterSize == Word32(b[24], b[25], b[26], b[27])
    ensures r.major == Word32(b[28], b[29], b[30], b[31]) && r.minor == Word32(b[32], b[33], b[34], b[35])
  {
    hide FromLe, Word32;
    RootRoundTrip(r, b);
    FromLe4(b[16..20]);
    FromLe4(b[20..24]);
    FromLe4(b[24..28]);
    FromLe4(b[28..32]);
    FromLe4(b[32..36]);
  }

  lemma SignatureText()
    ensures |SIGNATURE| == 16 && SIGNATURE[15] == 0
    ensures forall i :: 0 <= i < 15 ==> SIGNATURE[i] == "FRAT_FILESYSTEM"[i] as int
  {
  }

  lemma FieldOfBytes(b: seq<byte>, w: nat)
    requires |b| == w == 4
    ensures FromLe(b) < TWO_32 && Le(FromLe(b), w) == b
  {
    LeOfBytes(b);
    Powers();
  }

  /** Any 60 bytes are the packing of the root they parse to. */
  lemma RootOfBytes(b: seq<byte>)
    requires |b| == ROOT_SIZE
    ensures RootFits(ParseRoot(b)) && RootBytes(ParseRoot(b)) == b
  {
    FieldOfBytes(b[16..20], 4);
    FieldOfBytes(b[20..24], 4);
    FieldOfBytes(b[24..28], 4);
    FieldOfBytes(b[28..32], 4);
    FieldOfBytes(b[32..36], 4);
    assert b == b[..16] + b[16..20] + b[20..24] + b[24..28] + b[28..32] + b[32..36] + b[36..];
  }
}
