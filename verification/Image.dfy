/** The data blocks of a volume as they lie in the disk image. */
module Image {
  import opened Arith
  import opened Raw
  import opened Layout

  /** The blockSize bytes slot k owns. */
  function DataBytes(g: Geo, image: seq<byte>, k: nat): (b: seq<byte>)
    requires Sound(g)
    ensures |b| == g.blockSize
  {
    EnvSane(g);
    Block(EnvOf(g), image, DataLba(g, k))[..g.blockSize]
  }

  /** The bytes of slot k's block by their place in the image: one unit, the block size rounded up to whole
      sectors, for each block from the start of the partition on. Beyond the end of the image they are zero. */
  lemma DataBytesAt(g: Geo, image: seq<byte>, k: nat, u: nat, i: nat, p: nat)
    requires Sound(g) && u == 512 * CeilDiv(g.blockSize, 512) && i < g.blockSize
    requires p == 512 * g.loc + (DataLba(g, k) - g.loc) * u + i
    ensures DataBytes(g, image, k)[i] == if p < |image| then image[p] else 0
  {
    hide DataLba;
    EnvSane(g);
    UnitSizesAgree(EnvOf(g), g.loc, g.blockSize);
    assert (DataLba(g, k) - g.loc) * 512 * CeilDiv(g.blockSize, 512) == (DataLba(g, k) - g.loc) * u;
  }

  ghost function Blocks(g: Geo, image: seq<byte>, n: nat): (bs: seq<seq<byte>>)
    requires Sound(g)
    ensures |bs| == n && forall k :: 0 <= k < n ==> bs[k] == DataBytes(g, image, k)
  {
    seq(n, k requires 0 <= k < n => DataBytes(g, image, k))
  }

  predicate Backed(g: Geo, image: seq<byte>, k: nat)
  {
    Present(EnvOf(g), image, DataLba(g, k))
  }

  /** Outside the blocks of the slots in s, no block of the partition differs. */
  ghost predicate DiskFrame(g: Geo, image: seq<byte>, image': seq<byte>, s: set<nat>)
  {
    forall lba: nat {:trigger Block(EnvOf(g), image', lba)} ::
      g.loc <= lba && (forall k :: k in s ==> lba != DataLba(g, k)) ==>
        Block(EnvOf(g), image', lba) == Block(EnvOf(g), image, lba)
  }

  lemma DiskFrameTrans(g: Geo, i0: seq<byte>, i1: seq<byte>, i2: seq<byte>, s: set<nat>, t: set<nat>)
    requires DiskFrame(g, i0, i1, s) && DiskFrame(g, i1, i2, t) && s <= t
    ensures DiskFrame(g, i0, i2, t)
  {
    forall lba: nat | g.loc <= lba && (forall k :: k in t ==> lba != DataLba(g, k))
      ensures Block(EnvOf(g), i2, lba) == Block(EnvOf(g), i0, lba)
    {
      assert Block(EnvOf(g), i2, lba) == Block(EnvOf(g), i1, lba);
      assert Block(EnvOf(g), i1, lba) == Block(EnvOf(g), i0, lba);
    }
  }

  lemma OneBlock(g: Geo, n: nat)
    requires Sound(g) && 0 < n <= g.blockSize
    ensures Sane(EnvOf(g)) && UnitCount(EnvOf(g), n) == 1
    ensures n + SECTOR * EnvOf(g).calcBlock <= TWO_64 && SECTOR * EnvOf(g).calcBlock >= g.blockSize
  {
    EnvSane(g);
    assert 1 * g.blockSize == g.blockSize;
    FewBlocks(g, n, 1);
  }

  /** Writing up to a block's bytes to slot k: block k is replaced, zero-padded, and nothing else. */
  lemma PutBlock(g: Geo, image: seq<byte>, k: nat, data: seq<byte>, n: nat, j: nat)
    requires Sound(g) && 0 < n <= |data| && n <= g.blockSize
    ensures var image' := WriteBlocks(EnvOf(g), image, DataLba(g, k), data, n);
      && DataBytes(g, image', j) == (if j == k then data[..n] + Zeros(g.blockSize - n) else DataBytes(g, image, j))
      && (Backed(g, image', j) <== j == k || Backed(g, image, j))
  {
    var e, image' := EnvOf(g), WriteBlocks(EnvOf(g), image, DataLba(g, k), data, n);
    OneBlock(g, n);
    WriteRefinesBlockMap(e, image, DataLba(g, k), data, n, DataLba(g, j));
    if j == k {
      assert Slice(e, data, n, 0)[..g.blockSize] == data[..n] + Zeros(g.blockSize - n);
    }
  }

  lemma PutFrame(g: Geo, image: seq<byte>, k: nat, data: seq<byte>, n: nat)
    requires Sound(g) && 0 < n <= |data| && n <= g.blockSize
    ensures DiskFrame(g, image, WriteBlocks(EnvOf(g), image, DataLba(g, k), data, n), {k})
  {
    var e, image' := EnvOf(g), WriteBlocks(EnvOf(g), image, DataLba(g, k), data, n);
    OneBlock(g, n);
    forall lba: nat | g.loc <= lba && (forall j :: j in {k} ==> lba != DataLba(g, j))
      ensures Block(e, image', lba) == Block(e, image, lba)
    {
      assert k in {k};
      WriteRefinesBlockMap(e, image, DataLba(g, k), data, n, lba);
    }
  }

  /** Reading up to a block's bytes from slot k returns its whole block, if the image holds it. */
  lemma GetBlock(g: Geo, image: seq<byte>, k: nat, n: nat)
    requires Sound(g) && 0 < n <= g.blockSize
    ensures var r := ReadBlocks(EnvOf(g), image, DataLba(g, k), n);
      && (r.Some? <==> Backed(g, image, k))
      && (r.Some? ==> r.value == Block(EnvOf(g), image, DataLba(g, k)))
      && (r.Some? ==> |r.value| >= g.blockSize && r.value[..g.blockSize] == DataBytes(g, image, k))
  {
    var e, lba := EnvOf(g), DataLba(g, k);
    OneBlock(g, n);
    ReadRefinesBlockMap(e, image, lba, n);
    var r := ReadBlocks(e, image, lba, n);
    if r.Some? {
      var u := Unit(e);
      SaneExtent(e, n);
      assert 1 * u == u && 0 * u == 0;
      assert r.value[0 * u..0 * u + u] == Block(e, image, lba + 0);
      assert r.value == r.value[0..u];
    }
  }
}
