/** Formatting, flushing and mounting a volume on the disk image. */
module Mount {
  import opened Arith
  import opened Raw
  import opened Layout
  import opened ClusterMap
  import opened Codec

  /** What mounting recovers; the allocation hint starts at 0. The map buffer holds the slots and
      the clusterSize % 20 bytes after the last whole slot. */
  datatype Mounted = Mounted(loc: nat, root: Root, slots: Slots, rest: seq<byte>)

  function GeoOf(loc: nat, r: Root): Geo { Geo(loc, r.blockSize, r.logSectors, r.clusterSize) }

  ghost predicate Coherent(v: Mounted)
  {
    && RootFits(v.root) && v.root.signature == SIGNATURE && Sound(GeoOf(v.loc, v.root))
    && |v.slots| == v.root.clusterSize / SLOT_SIZE && |v.rest| == v.root.clusterSize % SLOT_SIZE
  }

  /** fmount for a partition at base: the root is read in 512-byte blocks, the map in the root's own. */
  function MountAt(image: seq<byte>, base: nat): Option<Mounted>
  {
    var e := Startup(0, 512).(partition := base);
    var head := ReadBlocks(e, image, base, ROOT_SIZE);
    if head.None? || |head.value| < ROOT_SIZE || head.value[..16] != SIGNATURE then None
    else
      var r := ParseRoot(head.value[..ROOT_SIZE]);
      var buf := ReadBlocks(WithBlockSize(e, r.blockSize), image, MapLba(GeoOf(base, r)), r.clusterSize);
      if buf.None? || |buf.value| < r.clusterSize then None
      else
        var n := SafeDiv(r.clusterSize, SLOT_SIZE);
        Some(Mounted(base, r, ParseMap(buf.value, n), buf.value[n * SLOT_SIZE..r.clusterSize]))
  }

  /** fuloadroot */
  function Flushed(image: seq<byte>, v: Mounted): seq<byte>
    requires Coherent(v)
  {
    var e := Startup(v.loc, v.root.blockSize);
    var image1 := WriteBlocks(e, image, v.loc, RootBytes(v.root), ROOT_SIZE);
    WriteBlocks(e, image1, MapLba(GeoOf(v.loc, v.root)), MapBuffer(v), v.root.clusterSize)
  }

  /** The first two writes of formatpart: root and log. */
  function RootAndLog(image: seq<byte>, base: nat, r: Root): seq<byte>
    requires RootFits(r)
  {
    var e, log := Startup(base, r.blockSize), LogBytes(r.logSectors, r.blockSize);
    var image1 := WriteBlocks(e, image, base, RootBytes(r), ROOT_SIZE);
    WriteBlocks(e, image1, base + 1, Zeros(log), log)
  }

  /** Its third: n zero bytes where the map belongs. */
  function ZeroMap(image: seq<byte>, g: Geo, n: nat): seq<byte>
  {
    WriteBlocks(EnvOf(g), image, MapLba(g), Zeros(n), n)
  }

  /** formatpart */
  function Formatted(image: seq<byte>, base: nat, high: nat, r: Root): seq<byte>
    requires RootFits(r) && base + r.logSectors <= high && r.blockSize > 0
  {
    var sectors := ClusterSectors(base, high, r.logSectors, r.blockSize);
    MulNonneg(sectors, r.blockSize);
    ZeroMap(RootAndLog(image, base, r), GeoOf(base, r), sectors * r.blockSize)
  }

  // ---------------------------------------------------------------- reading the root back

  /** Block 0 holds the packed root, zero-padded. */
  ghost predicate RootAt(image: seq<byte>, g: Geo, r: Root)
    requires RootFits(r)
  {
    Present(EnvOf(g), image, g.loc) && Block(EnvOf(g), image, g.loc) == Slice(EnvOf(g), RootBytes(r), ROOT_SIZE, 0)
  }

  lemma WriteRoot(image: seq<byte>, g: Geo, r: Root)
    requires RootFits(r) && Sound(g)
    ensures RootAt(WriteBlocks(EnvOf(g), image, g.loc, RootBytes(r), ROOT_SIZE), g, r)
  {
    EnvSane(g);
    RootIsOneBlock(g);
    WriteRefinesBlockMap(EnvOf(g), image, g.loc, RootBytes(r), ROOT_SIZE, g.loc);
  }

  /** A write elsewhere, or of nothing, leaves the root in place. */
  lemma RootSurvives(image: seq<byte>, g: Geo, r: Root, lba: nat, data: seq<byte>, n: nat)
    requires RootFits(r) && Sound(g) && RootAt(image, g, r)
    requires g.loc <= lba && (g.loc < lba || n == 0) && n <= |data| && n + Unit(EnvOf(g)) <= TWO_64
    ensures RootAt(WriteBlocks(EnvOf(g), image, lba, data, n), g, r)
  {
    EnvSane(g);
    WriteRefinesBlockMap(EnvOf(g), image, lba, data, n, g.loc);
    CeilDivLeast(0, Unit(EnvOf(g)), 0);
  }

  /** The bytes mounting finds where the root should be. */
  ghost predicate FrontReads(image: seq<byte>, loc: nat, b: seq<byte>)
  {
    var head := ReadBlocks(Startup(0, 512).(partition := loc), image, loc, ROOT_SIZE);
    head.Some? && |head.value| >= ROOT_SIZE && head.value[..ROOT_SIZE] == b
  }

  lemma ReadRoot(image: seq<byte>, g: Geo, r: Root)
    requires RootFits(r) && Sound(g) && RootAt(image, g, r)
    ensures FrontReads(image, g.loc, RootBytes(r))
  {
    EnvSane(g);
    var e0, e := Startup(0, 512).(partition := g.loc), EnvOf(g);
    SaneExtent(e0, ROOT_SIZE);
    assert Extent(e0, ROOT_SIZE) == 512;
    var o, u := Offset(e, g.loc), SECTOR * e.calcBlock;
    assert Offset(e0, g.loc) == o;
    var b := Block(e, image, g.loc);
    assert image[o..o + 512][..ROOT_SIZE] == b[..ROOT_SIZE];
    assert b[..ROOT_SIZE] == RootBytes(r);
  }

  /** The mount-time environment has the unit the volume was written with. */
  lemma MountEnv(g: Geo)
    requires Sound(g)
    ensures WithBlockSize(Startup(0, 512).(partition := g.loc), g.blockSize) == EnvOf(g)
  {
    UnitSizesAgree(Startup(0, 512).(partition := g.loc), g.loc, g.blockSize);
  }

  /** With root and map in place, mounting recovers them. */
  lemma MountReads(image: seq<byte>, g: Geo, r: Root, buf: seq<byte>)
    requires RootFits(r) && r.signature == SIGNATURE && g == GeoOf(g.loc, r) && Sound(g)
    requires FrontReads(image, g.loc, RootBytes(r))
    requires ReadBlocks(EnvOf(g), image, MapLba(g), g.clusterSize) == Some(buf) && |buf| >= g.clusterSize
    ensures var n := g.clusterSize / SLOT_SIZE;
      n * SLOT_SIZE <= g.clusterSize
      && MountAt(image, g.loc) == Some(Mounted(g.loc, r, ParseMap(buf, n), buf[n * SLOT_SIZE..g.clusterSize]))
  {
    RootRoundTrip(r, RootBytes(r));
    MountEnv(g);
    assert RootBytes(r)[..16] == SIGNATURE;
    var head := ReadBlocks(Startup(0, 512).(partition := g.loc), image, g.loc, ROOT_SIZE).value;
    assert head[..ROOT_SIZE][..16] == head[..16];
  }

  // ---------------------------------------------------------------- flush, then mount

  lemma MapReadsBack(image: seq<byte>, g: Geo, data: seq<byte>)
    requires Sound(g) && |data| == g.clusterSize
    ensures var image' := WriteBlocks(EnvOf(g), image, MapLba(g), data, g.clusterSize);
      var buf := ReadBlocks(EnvOf(g), image', MapLba(g), g.clusterSize);
      buf.Some? && |buf.value| >= g.clusterSize && buf.value[..g.clusterSize] == data
  {
    EnvSane(g);
    ReadAfterWrite(EnvOf(g), image, MapLba(g), data, g.clusterSize);
    SaneExtent(EnvOf(g), g.clusterSize);
  }

  lemma ParsePrefix(b: seq<byte>, b': seq<byte>, n: nat, c: nat)
    requires n * SLOT_SIZE <= c <= |b| && b[..c] == b'
    ensures ParseMap(b, n) == ParseMap(b', n) && b[n * SLOT_SIZE..c] == b'[n * SLOT_SIZE..c]
  {
    forall k | 0 <= k < n
      ensures b[k * SLOT_SIZE..k * SLOT_SIZE + SLOT_SIZE] == b'[k * SLOT_SIZE..k * SLOT_SIZE + SLOT_SIZE]
    {
    }
    assert b[n * SLOT_SIZE..c] == b[..c][n * SLOT_SIZE..];
  }

  /** The map as fuloadroot writes it. */
  function MapBuffer(v: Mounted): (b: seq<byte>)
    requires Coherent(v)
    ensures |b| == v.root.clusterSize
  {
    MapBytesLength(v.slots);
    MapBytes(v.slots) + v.rest
  }

  /** The map happens to start with the very bytes of the root. */
  ghost predicate Overlaid(v: Mounted)
    requires Coherent(v)
  {
    (MapBuffer(v) + Zeros(ROOT_SIZE))[..ROOT_SIZE] == RootBytes(v.root)
  }

  /** What a volume needs to survive a flush: a map that is not on the root, or no map, or one that
      repeats the root. */
  ghost predicate Restorable(v: Mounted)
    requires Coherent(v)
  {
    MapBlock(v.root.logSectors, v.root.blockSize) != 0 || v.root.clusterSize == 0 || Overlaid(v)
  }

  /** With the root in front, a flushed map mounts as what it was. */
  lemma FlushedMounts(image: seq<byte>, v: Mounted)
    requires Coherent(v) && Sized(v.slots) && FrontReads(Flushed(image, v), v.loc, RootBytes(v.root))
    ensures MountAt(Flushed(image, v), v.loc) == Some(v)
  {
    var g, image2 := GeoOf(v.loc, v.root), Flushed(image, v);
    var n, data := g.clusterSize / SLOT_SIZE, MapBuffer(v);
    MapReadsBack(WriteBlocks(EnvOf(g), image, v.loc, RootBytes(v.root), ROOT_SIZE), g, data);
    var buf := ReadBlocks(EnvOf(g), image2, MapLba(g), g.clusterSize).value;
    MountReads(image2, g, v.root, buf);
    MapRoundTrip(v.slots, v.rest, data);
    ParsePrefix(buf, data, n, g.clusterSize);
    assert data[n * SLOT_SIZE..g.clusterSize] == v.rest;
  }

  /** The root in front of a flushed image, when the map lies elsewhere. */
  lemma FlushedRoot(image: seq<byte>, v: Mounted)
    requires Coherent(v)
    requires MapBlock(v.root.logSectors, v.root.blockSize) != 0 || v.root.clusterSize == 0
    ensures FrontReads(Flushed(image, v), v.loc, RootBytes(v.root))
  {
    var g := GeoOf(v.loc, v.root);
    var image1 := WriteBlocks(EnvOf(g), image, v.loc, RootBytes(v.root), ROOT_SIZE);
    EnvSane(g);
    WriteRoot(image, g, v.root);
    RootSurvives(image1, g, v.root, MapLba(g), MapBuffer(v), g.clusterSize);
    ReadRoot(Flushed(image, v), g, v.root);
  }

  lemma FrontOf(data: seq<byte>, pad: nat, n: nat)
    requires n <= |data| + pad
    ensures (data + Zeros(pad))[..n] == (data + Zeros(n))[..n]
  {
  }

  /** What mounting finds in front after a write to the first block. */
  lemma FrontAfterWrite(e: Env, image: seq<byte>, data: seq<byte>, n: nat)
    requires Sane(e) && 0 < n == |data| && n + SECTOR * e.calcBlock <= TWO_64
    ensures FrontReads(WriteBlocks(e, image, e.partition, data, n), e.partition, (data + Zeros(ROOT_SIZE))[..ROOT_SIZE])
  {
    var image', base := WriteBlocks(e, image, e.partition, data, n), e.partition;
    SaneExtent(e, n);
    CeilDivLeast(n, Unit(e), 0);
    MulMono(1, UnitCount(e, n), Unit(e));
    var e0 := Startup(0, 512).(partition := base);
    SaneExtent(e0, ROOT_SIZE);
    var o := Offset(e, base);
    assert Offset(e0, base) == o;
    var buf := Padded(e, data, n);
    assert |buf| >= 512 && image'[o..o + |buf|] == buf;
    assert image'[o..o + 512] == image'[o..o + |buf|][..512];
    FrontOf(data, |buf| - n, ROOT_SIZE);
    assert data[..n] == data;
  }

  /** With other bytes in front, mounting does not find the root. */
  lemma FrontDecides(image: seq<byte>, v: Mounted, b: seq<byte>)
    requires Coherent(v) && FrontReads(image, v.loc, b) && MountAt(image, v.loc) == Some(v)
    ensures b == RootBytes(v.root)
  {
    RootOfBytes(b);
  }

  /** Flushing and mounting again restores the root, every slot and the buffer's tail exactly when the
      map is not on the root, is empty, or repeats the root. */
  lemma FlushThenMount(image: seq<byte>, v: Mounted)
    requires Coherent(v) && Sized(v.slots)
    ensures MountAt(Flushed(image, v), v.loc) == Some(v) <==> Restorable(v)
  {
    var g := GeoOf(v.loc, v.root);
    if MapBlock(v.root.logSectors, v.root.blockSize) != 0 || v.root.clusterSize == 0 {
      FlushedRoot(image, v);
      FlushedMounts(image, v);
    } else {
      var b := (MapBuffer(v) + Zeros(ROOT_SIZE))[..ROOT_SIZE];
      EnvSane(g);
      FrontAfterWrite(EnvOf(g), WriteBlocks(EnvOf(g), image, v.loc, RootBytes(v.root), ROOT_SIZE),
                      MapBuffer(v), g.clusterSize);
      assert FrontReads(Flushed(image, v), v.loc, b);
      if Overlaid(v) {
        FlushedMounts(image, v);
      } else if MountAt(Flushed(image, v), v.loc) == Some(v) {
        FrontDecides(Flushed(image, v), v, b);
      }
    }
  }

  /** Flushing touches no data block. */
  lemma FlushKeepsData(image: seq<byte>, v: Mounted, k: nat)
    requires Coherent(v) && k < |v.slots|
    ensures var g := GeoOf(v.loc, v.root);
      && Block(EnvOf(g), Flushed(image, v), DataLba(g, k)) == Block(EnvOf(g), image, DataLba(g, k))
      && (Present(EnvOf(g), image, DataLba(g, k)) ==> Present(EnvOf(g), Flushed(image, v), DataLba(g, k)))
  {
    var g := GeoOf(v.loc, v.root);
    var e := EnvOf(g);
    MapBytesLength(v.slots);
    EnvSane(g);
    DataApart(g, k);
    RootIsOneBlock(g);
    var image1 := WriteBlocks(e, image, v.loc, RootBytes(v.root), ROOT_SIZE);
    WriteRefinesBlockMap(e, image, v.loc, RootBytes(v.root), ROOT_SIZE, DataLba(g, k));
    WriteRefinesBlockMap(e, image1, MapLba(g), MapBuffer(v), g.clusterSize, DataLba(g, k));
  }

  /** What mounts has the signature, and its root, at the start of the partition. */
  lemma MountFinds(image: seq<byte>, base: nat, v: Mounted)
    requires MountAt(image, base) == Some(v)
    ensures 512 * base + 512 <= |image| && v.loc == base
    ensures forall i :: 0 <= i < 15 ==> image[512 * base + i] == "FRAT_FILESYSTEM"[i] as int
    ensures image[512 * base + 15] == 0
    ensures RootFits(v.root) && image[512 * base..512 * base + 60] == RootBytes(v.root)
    ensures |v.slots| == v.root.clusterSize / 20
  {
    hide ParseRoot, ParseMap, RootBytes, RootFits;
    var e := Startup(0, 512).(partition := base);
    ReadBytes(e, image, base, ROOT_SIZE, 512, 512 * base, 1);
    var head := ReadBlocks(e, image, base, ROOT_SIZE).value;
    RootOfBytes(head[..ROOT_SIZE]);
    assert head[..16] == image[512 * base..512 * base + 16];
    SignatureText();
  }

  // ---------------------------------------------------------------- format, then mount

  /** A root that formatpart makes, of arguments as it demands them: at least one log sector to build the root
      in, a block that holds the metadata record, a partition that holds the log, and no 64-bit overflow. The
      cluster size is cut to 32 bits. */
  ghost predicate Formattable(base: nat, high: nat, r: Root)
  {
    && RootFits(r)
    && 1 <= r.logSectors && 512 <= r.blockSize <= TWO_32 - SECTOR && base + r.logSectors <= high
    && r.signature == SIGNATURE && r.clusterSize == ClusterSectors(base, high, r.logSectors, r.blockSize) % TWO_32
    && ClusterSectors(base, high, r.logSectors, r.blockSize) * r.blockSize + TWO_32 <= TWO_64
  }

  /** A zeroed stretch reads back as zeros, in part or in full. */
  lemma ZerosReadBack(e: Env, image: seq<byte>, lba: nat, n: nat, k: nat)
    requires Sane(e) && e.partition <= lba && k <= n && n + SECTOR * e.calcBlock <= TWO_64
    ensures var buf := ReadBlocks(e, WriteBlocks(e, image, lba, Zeros(n), n), lba, k);
      buf.Some? && |buf.value| >= k && forall i :: 0 <= i < |buf.value| ==> buf.value[i] == 0
  {
    var u := SECTOR * e.calcBlock;
    SaneExtent(e, n);
    SaneExtent(e, k);
    CeilDivBounds(n, u);
    CeilDivLeast(k, u, CeilDiv(n, u));
    MulMono(CeilDiv(k, u), CeilDiv(n, u), u);
    assert Extent(e, k) <= Extent(e, n);
  }

  /** Zeros over block 0 leave no signature there. */
  lemma NoSignature(e: Env, image: seq<byte>, n: nat)
    requires Sane(e) && 0 < n && n + SECTOR * e.calcBlock <= TWO_64
    ensures MountAt(WriteBlocks(e, image, e.partition, Zeros(n), n), e.partition).None?
  {
    var image', base := WriteBlocks(e, image, e.partition, Zeros(n), n), e.partition;
    SaneExtent(e, n);
    var q := UnitCount(e, n);
    CeilDivLeast(n, Unit(e), 0);
    MulMono(1, q, Unit(e));
    var e0 := Startup(0, 512).(partition := base);
    SaneExtent(e0, ROOT_SIZE);
    assert Offset(e0, base) == Offset(e, base);
    var head := ReadBlocks(e0, image', base, ROOT_SIZE);
    assert head.value[0] == 0;
  }

  lemma LogKeepsRoot(image: seq<byte>, g: Geo, r: Root)
    requires RootFits(r) && Sound(g) && g == GeoOf(g.loc, r)
    ensures RootAt(RootAndLog(image, g.loc, r), g, r)
  {
    var e, log := EnvOf(g), LogBytes(r.logSectors, r.blockSize);
    EnvSane(g);
    LogFits(g);
    WriteRoot(image, g, r);
    RootSurvives(WriteBlocks(e, image, g.loc, RootBytes(r), ROOT_SIZE), g, r, g.loc + 1, Zeros(log), log);
  }

  lemma ZeroMapKeepsRoot(image: seq<byte>, g: Geo, r: Root, n: nat)
    requires RootFits(r) && Sound(g) && RootAt(image, g, r) && n + TWO_32 <= TWO_64
    requires MapBlock(g.logSectors, g.blockSize) != 0 || n == 0
    ensures RootAt(ZeroMap(image, g, n), g, r)
  {
    EnvSane(g);
    WriteRefinesBlockMap(EnvOf(g), image, MapLba(g), Zeros(n), n, g.loc);
    if n == 0 {
      CeilDivLeast(0, Unit(EnvOf(g)), 0);
    }
  }

  lemma ZeroSlice(e: Env, n: nat, i: nat)
    ensures Slice(e, Zeros(n), n, i) == Zeros(SECTOR * e.calcBlock)
  {
  }

  lemma RootSlice(e: Env, r: Root)
    requires RootFits(r) && SECTOR * e.calcBlock >= 512
    ensures Slice(e, RootBytes(r), ROOT_SIZE, 0) == RootBytes(r) + Zeros(SECTOR * e.calcBlock - 60)
  {
  }

  /** Every block of the partition after formatting: the root, a zeroed log, a zeroed map that may lie over
      them, and nothing else is written. */
  lemma FormatWrites(image: seq<byte>, base: nat, high: nat, r: Root, at: nat, u: nat, n: nat)
    requires Formattable(base, high, r) && base <= at && u == SECTOR * EnvOf(GeoOf(base, r)).calcBlock
    requires n == ClusterSectors(base, high, r.logSectors, r.blockSize) * r.blockSize
    ensures u >= 512
    ensures var e, map_ := EnvOf(GeoOf(base, r)), base + MapBlock(r.logSectors, r.blockSize);
      Block(e, Formatted(image, base, high, r), at)
      == if map_ <= at < map_ + CeilDiv(n, u) then Zeros(u)
         else if base < at <= base + CeilDiv((r.blockSize * r.logSectors) % TWO_32, u) then Zeros(u)
         else if at == base then RootBytes(r) + Zeros(u - 60)
         else Block(e, image, at)
  {
    hide ClusterSectors, MapBlock, WriteBlocks, Block, Slice, CeilDiv;
    var g := GeoOf(base, r);
    var e, log := EnvOf(g), LogBytes(r.logSectors, r.blockSize);
    var n' := ExtentCovers(base, high, r);
    EnvSane(g);
    LogFits(g);
    RootIsOneBlock(g);
    var image1 := WriteBlocks(e, image, base, RootBytes(r), ROOT_SIZE);
    WriteRefinesBlockMap(e, image, base, RootBytes(r), ROOT_SIZE, at);
    WriteRefinesBlockMap(e, image1, base + 1, Zeros(log), log, at);
    WriteRefinesBlockMap(e, RootAndLog(image, base, r), MapLba(g), Zeros(n), n, at);
    RootSlice(e, r);
    if at > base {
      ZeroSlice(e, log, at - base - 1);
    }
    if at >= MapLba(g) {
      ZeroSlice(e, n, at - MapLba(g));
    }
  }

  /** Every block of the partition after a flush: the map, the root, and nothing else is written. */
  lemma FlushWrites(image: seq<byte>, v: Mounted, at: nat, u: nat)
    requires Coherent(v) && v.loc <= at && u == SECTOR * EnvOf(GeoOf(v.loc, v.root)).calcBlock
    ensures u >= 512
    ensures var r := v.root;
      var e, map_ := EnvOf(GeoOf(v.loc, r)), v.loc + MapBlock(r.logSectors, r.blockSize);
      Block(e, Flushed(image, v), at)
      == if map_ <= at < map_ + CeilDiv(r.clusterSize, u) then Slice(e, MapBuffer(v), r.clusterSize, at - map_)
         else if at == v.loc then RootBytes(r) + Zeros(u - 60)
         else Block(e, image, at)
  {
    hide MapBlock, WriteBlocks, Block, Slice, CeilDiv, MapBuffer, RootBytes;
    var g := GeoOf(v.loc, v.root);
    var e := EnvOf(g);
    EnvSane(g);
    RootIsOneBlock(g);
    var image1 := WriteBlocks(e, image, v.loc, RootBytes(v.root), ROOT_SIZE);
    WriteRefinesBlockMap(e, image, v.loc, RootBytes(v.root), ROOT_SIZE, at);
    WriteRefinesBlockMap(e, image1, MapLba(g), MapBuffer(v), g.clusterSize, at);
    RootSlice(e, v.root);
  }

  lemma SlotsFit(c: nat)
    ensures c / SLOT_SIZE * SLOT_SIZE <= c
  {
  }

  /** Over a root, zeros where the map belongs mount as an empty map. */
  lemma ZeroMapMounts(image: seq<byte>, g: Geo, r: Root, n: nat) returns (rest: seq<byte>)
    requires RootFits(r) && r.signature == SIGNATURE && g == GeoOf(g.loc, r) && Sound(g) && RootAt(image, g, r)
    requires r.clusterSize <= n && n + TWO_32 <= TWO_64
    requires MapBlock(g.logSectors, g.blockSize) != 0 || n == 0
    ensures MountAt(ZeroMap(image, g, n), g.loc) == Some(Mounted(g.loc, r, Empty(r.clusterSize / SLOT_SIZE), rest))
    ensures |rest| == r.clusterSize % SLOT_SIZE
  {
    EnvSane(g);
    ZeroMapKeepsRoot(image, g, r, n);
    ZerosReadBack(EnvOf(g), image, MapLba(g), n, r.clusterSize);
    var buf := ReadBlocks(EnvOf(g), ZeroMap(image, g, n), MapLba(g), r.clusterSize).value;
    ReadRoot(ZeroMap(image, g, n), g, r);
    MountReads(ZeroMap(image, g, n), g, r, buf);
    SlotsFit(r.clusterSize);
    ParseEmpty(buf, r.clusterSize / SLOT_SIZE);
    rest := buf[r.clusterSize / SLOT_SIZE * SLOT_SIZE..r.clusterSize];
  }

  /** The bytes formatting zeroes cover the bytes mounting reads. */
  lemma ExtentCovers(base: nat, high: nat, r: Root) returns (n: nat)
    requires Formattable(base, high, r)
    ensures n == ClusterSectors(base, high, r.logSectors, r.blockSize) * r.blockSize
    ensures r.clusterSize <= n && n + TWO_32 <= TWO_64
    ensures n == 0 <==> ClusterSectors(base, high, r.logSectors, r.blockSize) == 0
    ensures Sound(GeoOf(base, r))
  {
    var sectors := ClusterSectors(base, high, r.logSectors, r.blockSize);
    MulNonneg(sectors, r.blockSize);
    MulMono(1, r.blockSize, sectors);
    n := sectors * r.blockSize;
    assert n == r.blockSize * sectors;
  }

  /** Mounting a freshly formatted partition recovers its root and an empty map. */
  lemma FormatMounts(image: seq<byte>, base: nat, high: nat, r: Root) returns (rest: seq<byte>)
    requires Formattable(base, high, r)
    requires MapBlock(r.logSectors, r.blockSize) != 0 || ClusterSectors(base, high, r.logSectors, r.blockSize) == 0
    ensures MountAt(Formatted(image, base, high, r), base)
            == Some(Mounted(base, r, Empty(r.clusterSize / SLOT_SIZE), rest))
    ensures |rest| == r.clusterSize % SLOT_SIZE
  {
    var g := GeoOf(base, r);
    var n := ExtentCovers(base, high, r);
    LogKeepsRoot(image, g, r);
    rest := ZeroMapMounts(RootAndLog(image, base, r), g, r, n);
  }

  /** Mounting a freshly formatted partition works exactly when the map's 32-bit block number is not
      that of the root (or there is no map at all). */
  lemma FormatExactly(image: seq<byte>, base: nat, high: nat, r: Root)
    requires Formattable(base, high, r)
    ensures MountAt(Formatted(image, base, high, r), base).Some? <==>
            (MapBlock(r.logSectors, r.blockSize) != 0 || ClusterSectors(base, high, r.logSectors, r.blockSize) == 0)
  {
    hide ClusterSectors, MapBlock, MountAt, Formatted;
    if MapBlock(r.logSectors, r.blockSize) != 0 || ClusterSectors(base, high, r.logSectors, r.blockSize) == 0 {
      var rest := FormatMounts(image, base, high, r);
    } else {
      FormatFails(image, base, high, r);
    }
  }

  /** Zeros over the root do not mount. */
  lemma FormatFails(image: seq<byte>, base: nat, high: nat, r: Root)
    requires Formattable(base, high, r) && MapBlock(r.logSectors, r.blockSize) == 0
    requires ClusterSectors(base, high, r.logSectors, r.blockSize) != 0
    ensures MountAt(Formatted(image, base, high, r), base).None?
  {
    hide ClusterSectors, MapBlock, MountAt, RootAndLog, WriteBlocks;
    var g := GeoOf(base, r);
    var n := ExtentCovers(base, high, r);
    EnvSane(g);
    NoSignature(EnvOf(g), RootAndLog(image, base, r), n);
  }

  /** The map of a fresh partition holds one slot for each sector after the log, as its formula has it,
      only if there is no such sector: a number of sectors is stored where a number of bytes is read. */
  lemma MapFallsShort(base: nat, high: nat, r: Root)
    requires Formattable(base, high, r)
    ensures var n, k := high - (base + r.logSectors), SlotCount(GeoOf(base, r));
      && (k == n <==> n == 0)
      && SLOT_SIZE * k * r.blockSize < SLOT_SIZE * n + r.blockSize
      && (SLOT_SIZE * n <= (TWO_32 - 1) * r.blockSize ==>
            SLOT_SIZE * n < SLOT_SIZE * (k + 1) * r.blockSize)
  {
    hide SlotCount, ClusterSectors, Formattable;
    FormatSizes(base, high, r);
    ShortSlots(GeoOf(base, r), base, high, high - (base + r.logSectors), SlotCount(GeoOf(base, r)));
    var k := SlotCount(GeoOf(base, r));
    var s := FreshRootIs(base, high, r);
    SlotsRest(GeoOf(base, r), k);
    Filled(s, TWO_32 - 1, r.blockSize, SLOT_SIZE * (high - (base + r.logSectors)));
    if s < TWO_32 {
      MulMono(s, SLOT_SIZE * (k + 1) - 1, r.blockSize);
      MulGap(SLOT_SIZE * (k + 1) - 1, SLOT_SIZE * (k + 1), r.blockSize);
    }
  }

  lemma FormatSizes(base: nat, high: nat, r: Root)
    requires Formattable(base, high, r)
    ensures 512 <= r.blockSize && base + r.logSectors <= high
    ensures r.clusterSize <= ClusterSectors(base, high, r.logSectors, r.blockSize)
  {
    hide ClusterSectors;
  }

  lemma ShortSlots(g: Geo, base: nat, high: nat, n: nat, k: nat)
    requires g.blockSize >= 512 && base + g.logSectors <= high && n == high - (base + g.logSectors)
    requires g.clusterSize <= ClusterSectors(base, high, g.logSectors, g.blockSize) && k == SlotCount(g)
    ensures (k == n <==> n == 0) && SLOT_SIZE * k * g.blockSize < SLOT_SIZE * n + g.blockSize
  {
    hide SlotCount, ClusterSectors;
    var s := ClusterSectors(base, high, g.logSectors, g.blockSize);
    SectorsHold(base, high, g.logSectors, g.blockSize, n, s);
    SlotsHold(g, k);
    FewSlots(n, k, SLOT_SIZE * k, s, g.blockSize);
  }

  /** The sector count is the number of blocks that 20 bytes for each sector after the log fill. */
  lemma SectorsHold(base: nat, high: nat, logSectors: nat, B: nat, n: nat, s: nat)
    requires base + logSectors <= high && B > 0 && n == high - (base + logSectors)
    requires s == ClusterSectors(base, high, logSectors, B)
    ensures SLOT_SIZE * n <= s * B < SLOT_SIZE * n + B
  {
    DivMod(n * SLOT_SIZE + (B - 1), B);
  }

  /** The cluster size of a fresh root is the number of blocks that 20 bytes for each sector after the log
      fill, cut to 32 bits. */
  lemma FreshRootIs(base: nat, high: nat, r: Root) returns (s: nat)
    requires Formattable(base, high, r)
    ensures s == ClusterSectors(base, high, r.logSectors, r.blockSize) && r.clusterSize == s % TWO_32
    ensures var n := high - (base + r.logSectors); 20 * n <= s * r.blockSize < 20 * n + r.blockSize
  {
    hide ClusterSectors;
    s := ClusterSectors(base, high, r.logSectors, r.blockSize);
    SectorsHold(base, high, r.logSectors, r.blockSize, high - (base + r.logSectors), s);
  }

  /** A fresh map has a slot number j exactly when the partition is large enough for it, as long as the
      count fits in 32 bits. */
  lemma FreshSlots(base: nat, high: nat, r: Root, j: nat)
    requires Formattable(base, high, r) && j > 0
    requires 20 * (high - (base + r.logSectors)) <= (TWO_32 - 1) * r.blockSize
    ensures j <= SlotCount(GeoOf(base, r)) <==> (20 * j - 1) * r.blockSize < 20 * (high - (base + r.logSectors))
  {
    hide ClusterSectors, Formattable;
    FormatSizes(base, high, r);
    var s := FreshRootIs(base, high, r);
    Filled(s, TWO_32 - 1, r.blockSize, 20 * (high - (base + r.logSectors)));
    SlotsIf(s, j);
    Filled(s, 20 * j - 1, r.blockSize, 20 * (high - (base + r.logSectors)));
  }

  /** The default format, 5 log sectors and blocks of 512 bytes, of 100000 sectors after the log: 3907 bytes of
      map with 195 slots, which start at block 3584 with the data at block 7680. */
  lemma DefaultFormat(r: Root)
    requires r == Root(SIGNATURE, 5, 512, 3907, 1, 0, Zeros(24))
    ensures Formattable(0, 100005, r) && SlotCount(GeoOf(0, r)) == 195
    ensures MapLba(GeoOf(0, r)) == 3584 && DataLba(GeoOf(0, r), 0) == 7680
  {
    assert ClusterSectors(0, 100005, 5, 512) == 3907;
  }

  lemma SlotsIf(c: nat, j: nat)
    ensures j <= c / SLOT_SIZE <==> 20 * j <= c
  {
  }

  /** More than q blocks are filled exactly when there are more bytes than q blocks hold. */
  lemma Filled(s: nat, q: nat, B: nat, n: nat)
    requires n <= s * B < n + B
    ensures q < s <==> q * B < n
  {
    if q < s {
      MulGap(q, s, B);
    } else {
      MulMono(s, q, B);
    }
  }

  lemma SlotsHold(g: Geo, k: nat)
    requires k == SlotCount(g)
    ensures SLOT_SIZE * k <= g.clusterSize
  {
  }

  lemma SlotsRest(g: Geo, k: nat)
    requires k == SlotCount(g)
    ensures g.clusterSize < SLOT_SIZE * (k + 1)
  {
  }

  /** m bytes for k slots, taken for sectors, of which s hold the n slots asked for. */
  lemma FewSlots(n: nat, k: nat, m: nat, s: nat, B: nat)
    requires B >= 512 && m == SLOT_SIZE * k <= s && s * B <= SLOT_SIZE * n + B - 1
    ensures m * B < SLOT_SIZE * n + B && (k == n <==> n == 0)
  {
    MulMono(m, s, B);
    if k > 0 {
      LessOne(m, B);
    }
  }

  lemma LessOne(m: nat, B: nat)
    requires m >= SLOT_SIZE && B >= 512
    ensures m * B > m + B
  {
    MulMono(SLOT_SIZE, m, B - 1);
    assert m * (B - 1) == m * B - m;
  }
}
