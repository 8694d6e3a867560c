/** The on-disk layout (the macros of frat.h), with the 32-bit arithmetic they are computed in. */
module Layout {
  import opened Arith
  import opened Raw

  /** sizeof(fsblock), sizeof(fsroot) */
  const SLOT_SIZE: nat := 20
  const ROOT_SIZE: nat := 60

  /** CLUSTERMAPOFFSET: one for the root, one for the gap, in 32 bits. */
  function MapSector(logSectors: nat): nat { (logSectors + 2) % TWO_32 }

  /** The cluster map's block, relative to the partition: a product of two 32-bit values. */
  function MapBlock(logSectors: nat, blockSize: nat): nat { (MapSector(logSectors) * blockSize) % TWO_32 }

  /** DATAFIRST relative to the partition: 64 bits wide, since the sector count is. */
  function DataBlock(logSectors: nat, blockSize: nat, clusterSize: nat): nat
  {
    (MapSector(logSectors) + SafeDiv(clusterSize, blockSize) + 1) * blockSize
  }

  /** CLUSTERMAPSECTORS_CALC */
  function ClusterSectors(base: nat, high: nat, logSectors: nat, blockSize: nat): nat
    requires base + logSectors <= high && blockSize > 0
  {
    SafeDiv((high - (base + logSectors)) * SLOT_SIZE + (blockSize - 1), blockSize)
  }

  /** The byte count of the log, a 32-bit product. */
  function LogBytes(logSectors: nat, blockSize: nat): nat { (blockSize * logSectors) % TWO_32 }

  /** What a volume's position on disk depends on. */
  datatype Geo = Geo(loc: nat, blockSize: nat, logSectors: nat, clusterSize: nat)

  ghost predicate Sound(g: Geo)
  {
    && 512 <= g.blockSize <= TWO_32 - SECTOR
    && g.logSectors < TWO_32 && g.clusterSize < TWO_32
  }

  function EnvOf(g: Geo): Env { Startup(g.loc, g.blockSize) }

  function SlotCount(g: Geo): nat { SafeDiv(g.clusterSize, SLOT_SIZE) }

  /** getloc: the block slot k owns. */
  function DataLba(g: Geo, k: nat): nat
  {
    g.loc + DataBlock(g.logSectors, g.blockSize, g.clusterSize) + k
  }

  function MapLba(g: Geo): nat { g.loc + MapBlock(g.logSectors, g.blockSize) }

  /** Blocks [a, a + n) and [b, b + k) share none. */
  predicate Apart(a: nat, n: nat, b: nat, k: nat) { n == 0 || k == 0 || a + n <= b || b + k <= a }

  lemma EnvSane(g: Geo)
    requires Sound(g)
    ensures Sane(EnvOf(g)) && Unit(EnvOf(g)) == SECTOR * EnvOf(g).calcBlock >= g.blockSize >= 512
  {
    UnitSizesAgree(EnvOf(g), g.loc, g.blockSize);
    CeilDivBounds(g.blockSize, SECTOR);
  }

  /** A region of q sectors of blockSize bytes, cut to n bytes, takes at most q blocks. */
  lemma FewBlocks(g: Geo, n: nat, q: nat)
    requires Sound(g) && n <= q * g.blockSize && n + Unit(EnvOf(g)) <= TWO_64
    ensures UnitCount(EnvOf(g), n) <= q
    ensures n > 0 ==> UnitCount(EnvOf(g), n) > 0
  {
    EnvSane(g);
    var u := Unit(EnvOf(g));
    SaneExtent(EnvOf(g), n);
    MulLeft(q, g.blockSize, u);
    CeilDivLeast(n, u, q);
    CeilDivLeast(n, u, 0);
  }

  lemma MulLeft(q: nat, a: nat, b: nat)
    requires a <= b
    ensures q * a <= q * b
  {
    MulMono(a, b, q);
    assert a * q == q * a && b * q == q * b;
  }

  lemma LogFits(g: Geo)
    requires Sound(g)
    ensures LogBytes(g.logSectors, g.blockSize) < TWO_32
    ensures UnitCount(EnvOf(g), LogBytes(g.logSectors, g.blockSize)) <= g.logSectors
  {
    EnvSane(g);
    MulNonneg(g.blockSize, g.logSectors);
    assert g.blockSize * g.logSectors == g.logSectors * g.blockSize;
    FewBlocks(g, LogBytes(g.logSectors, g.blockSize), g.logSectors);
  }

  /** Past the map: the data region starts at least (clusterSize / blockSize + 1) * blockSize blocks on. */
  lemma DataAfterMap(g: Geo)
    requires Sound(g)
    ensures var q := g.clusterSize / g.blockSize + 1;
      && DataBlock(g.logSectors, g.blockSize, g.clusterSize) >= MapBlock(g.logSectors, g.blockSize) + q * g.blockSize
      && g.clusterSize < q * g.blockSize && q <= q * g.blockSize
      && MapSector(g.logSectors) + q <= DataBlock(g.logSectors, g.blockSize, g.clusterSize)
  {
    var o, q, bs := MapSector(g.logSectors), g.clusterSize / g.blockSize + 1, g.blockSize;
    DivMod(g.clusterSize, bs);
    Spread(o, q, bs);
  }

  lemma Spread(o: nat, q: nat, bs: nat)
    requires bs > 0 && q > 0
    ensures (o + q) * bs == o * bs + q * bs && (o * bs) % TWO_32 <= o * bs
    ensures q <= q * bs && o + q <= (o + q) * bs && (q - 1) * bs + bs == q * bs
  {
    MulNonneg(o, bs);
    MulLeft(q, 1, bs);
    MulLeft(o + q, 1, bs);
  }

  /** Where the regions of a partition start: the map after the rows of log and two spare sectors, modulo 2^32,
      and the data a row after the rows that log, spare sectors and map take; block follows on block. */
  lemma Places(g: Geo, k: nat)
    requires Sound(g)
    ensures MapLba(g) == g.loc + (((g.logSectors + 2) % TWO_32) * g.blockSize) % TWO_32
    ensures DataLba(g, 0) == g.loc + ((g.logSectors + 2) % TWO_32) * g.blockSize
                             + (g.clusterSize / g.blockSize) * g.blockSize + g.blockSize
    ensures DataLba(g, k) == DataLba(g, 0) + k
  {
    var o, q, bs := (g.logSectors + 2) % TWO_32, g.clusterSize / g.blockSize, g.blockSize;
    assert (o + q + 1) * bs == o * bs + q * bs + bs;
  }

  /** As long as log and spare sectors stay below 2^32 bytes, the data start as many blocks after the map as
      its rows and one more hold. */
  lemma DataFollowsMap(g: Geo, k: nat, p: nat, q: nat)
    requires Sound(g) && p == (g.logSectors + 2) * g.blockSize && p < TWO_32 && q == g.clusterSize / g.blockSize
    ensures MapLba(g) == g.loc + p
    ensures DataLba(g, k) == MapLba(g) + (q + 1) * g.blockSize + k
  {
    hide DataBlock, MapBlock;
    MapPastLog(g);
    MapBlockPlain(g.logSectors, g.blockSize, p);
    DataBlockPlain(g.logSectors, g.blockSize, g.clusterSize, q, p);
  }

  lemma DataBlockPlain(logSectors: nat, blockSize: nat, clusterSize: nat, q: nat, p: nat)
    requires logSectors < TWO_32 - 2 && blockSize > 0
    requires q == clusterSize / blockSize && p == (logSectors + 2) * blockSize
    ensures DataBlock(logSectors, blockSize, clusterSize) == p + (q + 1) * blockSize
  {
    hide MapSector;
    MapSectorPlain(logSectors);
    Rows(logSectors + 2, q, blockSize);
  }

  lemma Rows(o: nat, q: nat, bs: nat)
    ensures (o + q + 1) * bs == o * bs + (q + 1) * bs
  {
  }

  /** Whatever wraps, root and log, root and data, map and data never meet: neither the map as it is
      used nor the larger extent that formatting zeroes reaches the data blocks. Log and data are
      apart exactly when the log ends before the data block. */
  lemma DataApart(g: Geo, k: nat)
    requires Sound(g) && k < SlotCount(g)
    ensures var e, d := EnvOf(g), DataBlock(g.logSectors, g.blockSize, g.clusterSize) + k;
      var m, l := MapBlock(g.logSectors, g.blockSize), LogBytes(g.logSectors, g.blockSize);
      && Apart(0, UnitCount(e, ROOT_SIZE), 1, UnitCount(e, l))
      && Apart(0, UnitCount(e, ROOT_SIZE), d, 1)
      && (Apart(1, UnitCount(e, l), d, 1) <==> UnitCount(e, l) < d)
      && Apart(m, UnitCount(e, g.clusterSize), d, 1)
      && Apart(m, UnitCount(e, g.clusterSize * g.blockSize), d, 1)
  {
    hide DataBlock, MapBlock, LogBytes, UnitCount, SlotCount, EnvOf;
    RootIsOneBlock(g);
    var p := MapRoom(g);
  }

  /** The map's blocks, in either extent, end at least a block before the data. */
  lemma MapRoom(g: Geo) returns (p: nat)
    requires Sound(g)
    ensures 0 < p && DataBlock(g.logSectors, g.blockSize, g.clusterSize) >= MapBlock(g.logSectors, g.blockSize) + p
    ensures UnitCount(EnvOf(g), g.clusterSize) <= p && UnitCount(EnvOf(g), g.clusterSize * g.blockSize) <= p
  {
    hide DataBlock, MapBlock, MapSector, UnitCount, EnvOf, Unit;
    var q := g.clusterSize / g.blockSize + 1;
    DataAfterMap(g);
    EnvSane(g);
    ClusterBytesSmall(g);
    FewBlocks(g, g.clusterSize, q);
    FewBlocks(g, g.clusterSize * g.blockSize, g.clusterSize);
    p := q * g.blockSize;
  }

  /** It does unless the log's sector count and the two spare sectors overflow 32 bits. */
  lemma LogApart(g: Geo, k: nat)
    requires Sound(g) && k < SlotCount(g) && g.logSectors < TWO_32 - 2
    ensures var e, d := EnvOf(g), DataBlock(g.logSectors, g.blockSize, g.clusterSize) + k;
      Apart(1, UnitCount(e, LogBytes(g.logSectors, g.blockSize)), d, 1)
  {
    hide DataBlock, MapBlock, LogBytes, UnitCount, SlotCount, EnvOf;
    LogFits(g);
    DataPastLog(g);
  }

  lemma DataPastLog(g: Geo)
    requires Sound(g) && g.logSectors < TWO_32 - 2
    ensures g.logSectors + 2 < DataBlock(g.logSectors, g.blockSize, g.clusterSize)
  {
    hide DataBlock, MapBlock, MapSector;
    DataAfterMap(g);
    DivMod(g.clusterSize, g.blockSize);
    MapSectorPlain(g.logSectors);
  }

  lemma MapSectorPlain(n: nat)
    requires n < TWO_32 - 2
    ensures MapSector(n) == n + 2
  {
  }

  /** Where it does: with 2^32 - 2 log sectors of 512 bytes the log lies over the first data block. */
  lemma LogOverData()
    ensures var g := Geo(0, 512, TWO_32 - 2, 40);
      && Sound(g) && SlotCount(g) == 2
      && !Apart(1, UnitCount(EnvOf(g), LogBytes(g.logSectors, 512)), DataBlock(g.logSectors, 512, 40), 1)
  {
    var g := Geo(0, 512, TWO_32 - 2, 40);
    assert DataBlock(g.logSectors, 512, 40) == 512;
    LongLog(EnvOf(g), LogBytes(g.logSectors, 512));
  }

  lemma LongLog(e: Env, n: nat)
    requires e.calcBlock == 1 && n == TWO_32 - 1024
    ensures UnitCount(e, n) == 8388606
  {
    assert Unit(e) == 512;
  }

  lemma RootIsOneBlock(g: Geo)
    requires Sound(g)
    ensures UnitCount(EnvOf(g), ROOT_SIZE) == 1
  {
    EnvSane(g);
    assert 1 * g.blockSize == g.blockSize;
    FewBlocks(g, ROOT_SIZE, 1);
  }

  lemma ClusterBytesSmall(g: Geo)
    requires Sound(g)
    ensures g.clusterSize * g.blockSize + TWO_32 <= TWO_64
  {
    MulMono(g.clusterSize, TWO_32 - 1, g.blockSize);
    MulMono(g.blockSize, TWO_32 - 1, TWO_32 - 1);
    assert (TWO_32 - 1) * (TWO_32 - 1) + TWO_32 <= TWO_64;
    assert (TWO_32 - 1) * g.blockSize == g.blockSize * (TWO_32 - 1);
  }

  /** The map meets neither root nor log exactly when its 32-bit block number lies past the log. */
  lemma MapApartExactly(g: Geo, n: nat)
    requires Sound(g) && 0 < n <= g.clusterSize * g.blockSize
    ensures var e, m := EnvOf(g), MapBlock(g.logSectors, g.blockSize);
      var l := UnitCount(e, LogBytes(g.logSectors, g.blockSize));
      && (Apart(0, UnitCount(e, ROOT_SIZE), m, UnitCount(e, n)) <==> m != 0)
      && ((Apart(0, UnitCount(e, ROOT_SIZE), m, UnitCount(e, n)) && Apart(1, l, m, UnitCount(e, n))) <==> m > l)
  {
    EnvSane(g);
    RootIsOneBlock(g);
    ClusterBytesSmall(g);
    FewBlocks(g, n, g.clusterSize);
  }

  /** It does whenever the log and the two spare sectors stay below 2^32 bytes. */
  lemma MapPastLog(g: Geo)
    requires Sound(g) && (g.logSectors + 2) * g.blockSize < TWO_32
    ensures g.logSectors < TWO_32 - 2
    ensures MapBlock(g.logSectors, g.blockSize) > UnitCount(EnvOf(g), LogBytes(g.logSectors, g.blockSize))
  {
    LogFits(g);
    MulMono(1, g.blockSize, g.logSectors + 2);
    assert g.blockSize * (g.logSectors + 2) == (g.logSectors + 2) * g.blockSize;
    MapBlockPlain(g.logSectors, g.blockSize, (g.logSectors + 2) * g.blockSize);
  }

  lemma MapBlockPlain(logSectors: nat, blockSize: nat, p: nat)
    requires logSectors < TWO_32 - 2 && blockSize > 0 && p == (logSectors + 2) * blockSize && p < TWO_32
    ensures MapBlock(logSectors, blockSize) == p > logSectors
  {
    hide MapSector;
    MapSectorPlain(logSectors);
    MulLeft(logSectors + 2, 1, blockSize);
  }

  /** Beyond that it can land on the root: 65534 log sectors of 65536 bytes put the map at block 0. */
  lemma MapOnRoot()
    ensures var g := Geo(0, 0x1_0000, 0xFFFE, 40);
      && Sound(g) && MapBlock(g.logSectors, g.blockSize) == 0
      && !Apart(0, UnitCount(EnvOf(g), ROOT_SIZE), 0, UnitCount(EnvOf(g), g.clusterSize))
  {
    var g := Geo(0, 0x1_0000, 0xFFFE, 40);
    assert 40 <= g.clusterSize * g.blockSize;
    MapApartExactly(g, 40);
  }
}
