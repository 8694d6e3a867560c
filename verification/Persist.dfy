/** Volumes across a flush and a new mount, and on a fresh partition. */
module Persist {
  import opened Arith
  import opened Raw
  import opened Layout
  import opened ClusterMap
  import opened FileStore
  import opened Image
  import opened Codec
  import opened Mount
  import opened Volume
  import opened Execution
  import Runs

  /** fmount, the partition being found. */
  method MountPartition(disk: DiskFile, base: nat) returns (r: Option<Mounted>)
    ensures r == MountAt(disk.image, base)
  {
    var re := new RawEnv(disk, 0, 512);
    re.partition := base;
    var head := re.Read(base, ROOT_SIZE);
    if head.None? || |head.value| < ROOT_SIZE || head.value[..16] != SIGNATURE {
      return None;
    }
    var root := ParseRoot(head.value[..ROOT_SIZE]);
    re.SetBlockSize(root.blockSize);
    var buf := re.Read(MapLba(GeoOf(base, root)), root.clusterSize);
    if buf.None? || |buf.value| < root.clusterSize {
      return None;
    }
    var n := SafeDiv(root.clusterSize, SLOT_SIZE);
    r := Some(Mounted(base, root, ParseMap(buf.value, n), buf.value[n * SLOT_SIZE..root.clusterSize]));
  }

  method WriteRootAndLog(disk: DiskFile, base: nat, root: Root)
    requires RootFits(root) && Sound(GeoOf(base, root))
    modifies disk
    ensures disk.image == RootAndLog(old(disk.image), base, root)
  {
    var log := LogBytes(root.logSectors, root.blockSize);
    EnvSane(GeoOf(base, root));
    LogFits(GeoOf(base, root));
    var re := new RawEnv(disk, base, root.blockSize);
    re.Write(RootBytes(root), base, ROOT_SIZE);
    re.Write(Zeros(log), base + 1, log);
  }

  method WriteZeroMap(disk: DiskFile, g: Geo, n: nat)
    requires Sound(g) && n + TWO_32 <= TWO_64
    modifies disk
    ensures disk.image == ZeroMap(old(disk.image), g, n)
  {
    EnvSane(g);
    var re := new RawEnv(disk, g.loc, g.blockSize);
    re.Write(Zeros(n), MapLba(g), n);
  }

  /** formatpart, the partition being found; extension stands for the constant extension record. */
  method FormatPartition(disk: DiskFile, base: nat, high: nat, blockSize: nat, logSectors: nat,
                         major: nat, minor: nat, extension: seq<byte>) returns (root: Root)
    requires base + logSectors <= high && blockSize > 0
    requires var s := ClusterSectors(base, high, logSectors, blockSize) % TWO_32;
      Formattable(base, high, Root(SIGNATURE, logSectors, blockSize, s, major, minor, extension))
    modifies disk
    ensures root.logSectors == logSectors && root.blockSize == blockSize && root.extension == extension
    ensures root.major == major && root.minor == minor && Formattable(base, high, root)
    ensures disk.image == Formatted(old(disk.image), base, high, root)
  {
    hide ClusterSectors;
    var sectors := ClusterSectors(base, high, logSectors, blockSize);
    root := Root(SIGNATURE, logSectors, blockSize, sectors % TWO_32, major, minor, extension);
    ghost var extent := ExtentCovers(base, high, root);
    WriteRootAndLog(disk, base, root);
    WriteZeroMap(disk, GeoOf(base, root), sectors * blockSize);
  }

  /** The volume a mounted state describes, over an image. */
  ghost predicate Live(v: Mounted, image: seq<byte>)
  {
    Coherent(v) && Ready(GeoOf(v.loc, v.root), v.slots, image, {})
  }

  lemma FlushKeepsBlocks(image: seq<byte>, v: Mounted)
    requires Coherent(v)
    ensures var g := GeoOf(v.loc, v.root);
      Blocks(g, Flushed(image, v), |v.slots|) == Blocks(g, image, |v.slots|)
  {
    var g := GeoOf(v.loc, v.root);
    forall k | 0 <= k < |v.slots|
      ensures DataBytes(g, Flushed(image, v), k) == DataBytes(g, image, k)
    {
      FlushKeepsData(image, v, k);
    }
  }

  /** Every file holds the same bytes in both states. */
  ghost predicate SameFiles(st: Store, st': Store, B: nat)
  {
    && FileStore.Valid(st, B) && FileStore.Valid(st', B)
    && forall c: Fcode {:trigger Contents(st', c, B)} :: c != NO_FILE ==> Contents(st', c, B) == Contents(st, c, B)
  }

  lemma SameBlocksSameFiles(st: Store, hint: nat, B: nat)
    requires FileStore.Valid(st, B)
    ensures SameFiles(st, st.(hint := hint), B)
  {
    forall c: Fcode | c != NO_FILE
      ensures Contents(st.(hint := hint), c, B) == Contents(st, c, B)
    {
      assert FileBlocks(st.(hint := hint), c, B) == FileBlocks(st, c, B);
    }
  }

  /** Flush and mount: exactly the volumes that can survive it come back with the same root and the same
      slots; the bytes of every file are kept on disk in any case; only the allocation hint is lost. */
  lemma Remount(image: seq<byte>, v: Mounted, hint: nat)
    requires Live(v, image)
    ensures MountAt(Flushed(image, v), v.loc) == Some(v) <==> Restorable(v)
    ensures Live(v, Flushed(image, v))
    ensures var g := GeoOf(v.loc, v.root);
      && ViewOf(g, v.slots, 0, Flushed(image, v)) == ViewOf(g, v.slots, hint, image).(hint := 0)
      && SameFiles(ViewOf(g, v.slots, hint, image), ViewOf(g, v.slots, 0, Flushed(image, v)), g.blockSize)
  {
    var g, image' := GeoOf(v.loc, v.root), Flushed(image, v);
    FlushThenMount(image, v);
    FlushKeepsBlocks(image, v);
    forall k: nat | At(v.slots, k) && !Free(v.slots[k])
      ensures Backed(g, image', k)
    {
      FlushKeepsData(image, v, k);
    }
    SameBlocksSameFiles(ViewOf(g, v.slots, hint, image), 0, g.blockSize);
  }

  /** A fresh volume is ready for use. */
  lemma FreshVolume(image: seq<byte>, base: nat, high: nat, root: Root) returns (rest: seq<byte>)
    requires Formattable(base, high, root)
    requires MapBlock(root.logSectors, root.blockSize) != 0
             || ClusterSectors(base, high, root.logSectors, root.blockSize) == 0
    ensures var v := Mounted(base, root, Empty(root.clusterSize / SLOT_SIZE), rest);
      && MountAt(Formatted(image, base, high, root), base) == Some(v) && Live(v, Formatted(image, base, high, root))
      && (MapBlock(root.logSectors, root.blockSize) != 0 || root.clusterSize == 0)
  {
    hide MountAt, Formatted;
    rest := FormatMounts(image, base, high, root);
    var n := ExtentCovers(base, high, root);
    EmptyInv(root.clusterSize / SLOT_SIZE);
  }

  // ---------------------------------------------------------------- runs that survive

  /** The volume v after a run from its image. */
  ghost function After(v: Mounted, image: seq<byte>, ops: seq<Runs.Op>, w: Runs.World): Store
    requires Live(v, image) && Runs.Sensible(w, v.root.blockSize)
  {
    Runs.Run(ViewOf(GeoOf(v.loc, v.root), v.slots, 0, image), ops, w, v.root.blockSize)
  }

  /** A run on a live volume, a flush and a mount: what mounts is the map the run ended with, exactly
      if that can survive a flush, and every file reads as it did when the run ended. */
  method RunAndRemount(disk: DiskFile, v: Mounted, ops: seq<Runs.Op>, w: Runs.World) returns (m: Option<Mounted>)
    requires Live(v, disk.image) && Runs.Sensible(w, v.root.blockSize)
    modifies disk
    ensures var g, r := GeoOf(v.loc, v.root), After(v, old(disk.image), ops, w);
      var v' := v.(slots := r.map_);
      && Live(v', disk.image) && (m == Some(v') <==> Restorable(v'))
      && SameFiles(r, ViewOf(g, r.map_, 0, disk.image), g.blockSize)
  {
    hide Inv, AllBacked, Flushed, MountAt, Blocks;
    var vol := new Volume(disk, v);
    RunOps(vol, ops, w);
    ghost var v', image := v.(slots := vol.slots[..]), disk.image;
    Remount(image, v', vol.lastAlloc);
    vol.Flush();
    m := MountPartition(disk, v.loc);
  }

  /** The life of a volume: format, mount, run, flush, mount. */
  method FormatAndRun(disk: DiskFile, base: nat, high: nat, root: Root, ops: seq<Runs.Op>, w: Runs.World)
    returns (v: Mounted, m: Option<Mounted>)
    requires Formattable(base, high, root) && Runs.Sensible(w, root.blockSize)
    requires MapBlock(root.logSectors, root.blockSize) != 0
             || ClusterSectors(base, high, root.logSectors, root.blockSize) == 0
    modifies disk
    ensures var image := Formatted(old(disk.image), base, high, root);
      && v.root == root && v.slots == Empty(root.clusterSize / SLOT_SIZE) && Live(v, image)
      && var r := After(v, image, ops, w);
      && m == Some(v.(slots := r.map_))
      && SameFiles(r, ViewOf(GeoOf(base, root), r.map_, 0, disk.image), root.blockSize)
  {
    ghost var rest := FreshVolume(disk.image, base, high, root);
    var made := FormatPartition(disk, base, high, root.blockSize, root.logSectors,
                                root.major, root.minor, root.extension);
    var fresh_ := MountPartition(disk, base);
    v := fresh_.value;
    m := RunAndRemount(disk, v, ops, w);
  }
}
