/** The raw block layer (raw.c): logical block addresses over a byte image. */
module Raw {
  import opened Arith

  /** DefaultRawDiskSize: the real sector. */
  const SECTOR: nat := 512

  /** __safediv: division that yields 1 for a zero divisor. */
  function SafeDiv(a: nat, b: nat): nat
  {
    if b != 0 then a / b else 1
  }

  /** The numeric fields of rawenv_t. All of calcBlock and confBlock are 32 bits wide. */
  datatype Env = Env(partition: nat, calcBlock: nat, confBlock: nat)

  function Startup(partition: nat, confBlock: nat): Env
  {
    var sectors := confBlock / SECTOR + (if confBlock % SECTOR != 0 then 1 else 0);
    Env(partition, if sectors == 0 then 1 else sectors, confBlock)
  }

  /** setblocksize: the sum before the division wraps at 32 bits. */
  function WithBlockSize(e: Env, confBlock: nat): Env
  {
    e.(calcBlock := SafeDiv((confBlock + SECTOR - 1) % TWO_32, SECTOR), confBlock := confBlock)
  }

  /** blockBytes: a product of two 32-bit fields, so it wraps at 32 bits. */
  function Unit(e: Env): nat
  {
    (SECTOR * e.calcBlock) % TWO_32
  }

  /** The unit neither vanishes nor wraps. */
  ghost predicate Sane(e: Env)
  {
    0 < SECTOR * e.calcBlock < TWO_32
  }

  /** Number of logical blocks moved for a request of n bytes. */
  function UnitCount(e: Env, n: nat): nat
  {
    SafeDiv((n + Unit(e) + TWO_64 - 1) % TWO_64, Unit(e))
  }

  function Extent(e: Env, n: nat): nat
  {
    UnitCount(e, n) * e.calcBlock * SECTOR
  }

  function Offset(e: Env, lba: nat): nat
    requires e.partition <= lba
  {
    e.partition * SECTOR + (lba - e.partition) * SECTOR * e.calcBlock
  }

  /** The bytes [off, off + len) of an image, a hole past its end reading as zero. */
  function View(image: seq<byte>, off: nat, len: nat): (v: seq<byte>)
    ensures |v| == len
    ensures forall i :: 0 <= i < len ==> v[i] == if off + i < |image| then image[off + i] else 0
  {
    seq(len, i requires 0 <= i => if off + i < |image| then image[off + i] else 0)
  }

  /** fseek followed by fwrite of a whole buffer: the file grows when the end is passed. */
  function Splice(image: seq<byte>, off: nat, data: seq<byte>): (r: seq<byte>)
    ensures |r| == if data == [] then |image| else Max(|image|, off + |data|)
    ensures forall i :: 0 <= i < |r| ==>
      r[i] == if off <= i < off + |data| then data[i - off] else if i < |image| then image[i] else 0
  {
    if data == [] then image
    else View(image, 0, off) + data + (if off + |data| < |image| then image[off + |data|..] else [])
  }

  function ReadBlocks(e: Env, image: seq<byte>, lba: nat, n: nat): Option<seq<byte>>
  {
    if lba < e.partition then None
    else if Extent(e, n) == 0 then Some([])
    else if Offset(e, lba) + Extent(e, n) <= |image| then
      Some(image[Offset(e, lba)..Offset(e, lba) + Extent(e, n)])
    else None
  }

  /** The zero-filled buffer of whole blocks that receives the caller's bytes. */
  function Padded(e: Env, data: seq<byte>, n: nat): (r: seq<byte>)
    requires n <= |data|
  {
    data[..n] + Zeros(if n <= Extent(e, n) then Extent(e, n) - n else 0)
  }

  function WriteBlocks(e: Env, image: seq<byte>, lba: nat, data: seq<byte>, n: nat): seq<byte>
    requires n <= |data|
  {
    if lba < e.partition then image
    else Splice(image, Offset(e, lba), Padded(e, data, n))
  }

  // ---------------------------------------------------------------- the simple view

  /** The block map this layer presents: block lba of the image. */
  function Block(e: Env, image: seq<byte>, lba: nat): (b: seq<byte>)
    requires e.partition <= lba
    ensures |b| == SECTOR * e.calcBlock
  {
    View(image, Offset(e, lba), SECTOR * e.calcBlock)
  }

  /** The image holds the whole of block lba, so reading it cannot come up short. */
  predicate Present(e: Env, image: seq<byte>, lba: nat)
    requires e.partition <= lba
  {
    Offset(e, lba) + SECTOR * e.calcBlock <= |image|
  }

  /** Block i of a write of n bytes of data. */
  function Slice(e: Env, data: seq<byte>, n: nat, i: nat): (b: seq<byte>)
    requires n <= |data|
    ensures |b| == SECTOR * e.calcBlock
  {
    View(data[..n], i * (SECTOR * e.calcBlock), SECTOR * e.calcBlock)
  }

  /** The two ways to set a unit size agree exactly on nonzero sizes that do not overflow 32 bits. */
  lemma UnitSizesAgree(e: Env, p: nat, confBlock: nat)
    requires confBlock < TWO_32
    ensures WithBlockSize(e, confBlock).calcBlock == Startup(p, confBlock).calcBlock
            <==> 0 < confBlock <= TWO_32 - SECTOR
    ensures Sane(Startup(p, confBlock)) <==> confBlock <= TWO_32 - SECTOR
    ensures 0 < confBlock <= TWO_32 - SECTOR ==>
      Startup(p, confBlock).calcBlock == CeilDiv(confBlock, SECTOR)
    ensures Startup(p, 0).calcBlock == 1 && WithBlockSize(e, 0).calcBlock == 0
    ensures confBlock > TWO_32 - SECTOR ==>
      Startup(p, confBlock).calcBlock == 0x80_0000 && WithBlockSize(e, confBlock).calcBlock == 0
  {
    if confBlock > TWO_32 - SECTOR {
      assert (confBlock + SECTOR - 1) % TWO_32 == confBlock + SECTOR - 1 - TWO_32;
    }
  }

  /** With a unit of 0 bytes a request counts as one unit of none. */
  lemma ZeroUnit(e: Env, image: seq<byte>, lba: nat, n: nat)
    requires e.calcBlock == 0 && e.partition <= lba
    ensures UnitCount(e, n) == 1 && ReadBlocks(e, image, lba, n) == Some([])
  {
  }

  /** A block size so large that startup's unit is 2^32 bytes: the unit wraps to 0, and a request of any size
      moves all of those bytes. */
  lemma WrappedUnit(p: nat, confBlock: nat, n: nat)
    requires TWO_32 - SECTOR < confBlock < TWO_32
    ensures Unit(Startup(p, confBlock)) == 0 && Extent(Startup(p, confBlock), n) == TWO_32
  {
    UnitSizesAgree(Startup(p, confBlock), p, confBlock);
  }

  /** A sane environment moves the least number of whole blocks that hold n bytes. */
  lemma SaneExtent(e: Env, n: nat)
    requires Sane(e) && n + SECTOR * e.calcBlock <= TWO_64
    ensures Unit(e) == SECTOR * e.calcBlock
    ensures UnitCount(e, n) == CeilDiv(n, Unit(e))
    ensures Extent(e, n) == UnitCount(e, n) * Unit(e)
    ensures n <= Extent(e, n) < n + Unit(e)
  {
    hide UnitCount, CeilDiv, Extent;
    var u := SECTOR * e.calcBlock;
    CountIs(e, n, u);
    ExtentIs(e, n, UnitCount(e, n), u);
    CeilDivBounds(n, u);
  }

  lemma CountIs(e: Env, n: nat, u: nat)
    requires u == Unit(e) > 0 && n + u <= TWO_64
    ensures UnitCount(e, n) == CeilDiv(n, u)
  {
    hide Unit;
    WrapsBack(n, u);
  }

  lemma ExtentIs(e: Env, n: nat, q: nat, u: nat)
    requires q == UnitCount(e, n) && u == SECTOR * e.calcBlock
    ensures Extent(e, n) == q * u
  {
    hide UnitCount;
    Regroup(q, e.calcBlock, SECTOR);
  }

  lemma WrapsBack(n: nat, u: nat)
    requires 0 < u && n + u <= TWO_64
    ensures (n + u + TWO_64 - 1) % TWO_64 == n + u - 1
  {
    DivIs(n + u + TWO_64 - 1, TWO_64, 1, n + u - 1);
  }

  lemma Regroup(q: nat, c: nat, k: nat)
    ensures q * c * k == q * (k * c)
  {
    assert q * c * k == q * (c * k);
  }

  /** Consecutive blocks are exactly a unit apart. */
  lemma OffsetStep(e: Env, lba: nat, i: nat)
    requires e.partition <= lba
    ensures Offset(e, lba + i) == Offset(e, lba) + i * (SECTOR * e.calcBlock)
  {
    var d, c := lba - e.partition, e.calcBlock;
    assert (d + i) * SECTOR * c == d * SECTOR * c + i * (SECTOR * c);
  }

  lemma OffsetsApart(e: Env, a: nat, b: nat)
    requires e.partition <= a < b
    ensures Offset(e, a) + SECTOR * e.calcBlock <= Offset(e, b)
  {
    OffsetStep(e, a, b - a);
    MulGap(0, b - a, SECTOR * e.calcBlock);
  }

  /** What lies outside the bytes written stays. */
  lemma SpliceOutside(image: seq<byte>, off: nat, data: seq<byte>, a: nat, u: nat)
    requires a + u <= off || off + |data| <= a
    ensures View(Splice(image, off, data), a, u) == View(image, a, u)
  {
    hide Splice, View;
  }

  /** What lies inside is the stretch of the bytes written. */
  lemma SpliceInside(image: seq<byte>, off: nat, data: seq<byte>, j: nat, u: nat)
    requires j + u <= |data|
    ensures View(Splice(image, off, data), off + j, u) == data[j..j + u]
    ensures data != [] ==> off + j + u <= |Splice(image, off, data)|
  {
    hide Splice, View;
    if data != [] {
      var v := View(Splice(image, off, data), off + j, u);
      forall i | 0 <= i < u
        ensures v[i] == data[j..j + u][i]
      {
        assert v[i] == Splice(image, off, data)[off + j + i];
      }
    }
  }

  lemma PaddedStretch(d: seq<byte>, z: nat, j: nat, u: nat)
    requires j + u <= |d| + z
    ensures (d + Zeros(z))[j..j + u] == View(d, j, u)
  {
    hide View;
  }

  lemma PaddedIs(e: Env, data: seq<byte>, n: nat, x: nat)
    requires n <= |data| && n <= x == Extent(e, n)
    ensures Padded(e, data, n) == data[..n] + Zeros(x - n) && |Padded(e, data, n)| == x
  {
  }

  /** A block of the map that a write of x bytes at offset o covers. */
  lemma WriteInside(e: Env, image: seq<byte>, lba: nat, data: seq<byte>, n: nat, i: nat, u: nat, x: nat, o: nat, j: nat)
    requires n <= |data| && e.partition <= lba && 0 < u == SECTOR * e.calcBlock && n <= x == Extent(e, n)
    requires o == Offset(e, lba) && j == i * u && j + u <= x && Offset(e, lba + i) == o + j
    ensures Block(e, WriteBlocks(e, image, lba, data, n), lba + i) == Slice(e, data, n, i)
    ensures Present(e, WriteBlocks(e, image, lba, data, n), lba + i)
  {
    hide Splice, View, Offset, Extent, Padded;
    PaddedIs(e, data, n, x);
    SpliceInside(image, o, Padded(e, data, n), j, u);
    PaddedStretch(data[..n], x - n, j, u);
  }

  /** One that it does not touch. */
  lemma WriteOutside(e: Env, image: seq<byte>, lba: nat, data: seq<byte>, n: nat, at: nat,
                     u: nat, x: nat, o: nat, a: nat)
    requires n <= |data| && e.partition <= lba && e.partition <= at && u == SECTOR * e.calcBlock
    requires n <= x == Extent(e, n) && o == Offset(e, lba) && a == Offset(e, at) && (a + u <= o || o + x <= a)
    ensures Block(e, WriteBlocks(e, image, lba, data, n), at) == Block(e, image, at)
    ensures n > 0 && a + u <= o ==> Present(e, WriteBlocks(e, image, lba, data, n), at)
    ensures Present(e, image, at) ==> Present(e, WriteBlocks(e, image, lba, data, n), at)
  {
    hide Splice, View, Offset, Extent, Padded;
    PaddedIs(e, data, n, x);
    SpliceOutside(image, o, Padded(e, data, n), a, u);
  }

  /** A write replaces exactly the UnitCount consecutive blocks at its address, zero-padding the last. */
  lemma WriteRefinesBlockMap(e: Env, image: seq<byte>, lba: nat, data: seq<byte>, n: nat, at: nat)
    requires Sane(e) && n <= |data| && n + SECTOR * e.calcBlock <= TWO_64
    requires e.partition <= lba && e.partition <= at
    ensures UnitCount(e, n) == CeilDiv(n, Unit(e))
    ensures Block(e, WriteBlocks(e, image, lba, data, n), at)
            == if lba <= at < lba + UnitCount(e, n) then Slice(e, data, n, at - lba) else Block(e, image, at)
    ensures n > 0 && at < lba + UnitCount(e, n) ==> Present(e, WriteBlocks(e, image, lba, data, n), at)
    ensures Present(e, image, at) ==> Present(e, WriteBlocks(e, image, lba, data, n), at)
  {
    hide Unit, UnitCount, CeilDiv, Offset, Extent, Block, Present, Slice, WriteBlocks;
    var u, q, o, x := SECTOR * e.calcBlock, UnitCount(e, n), Offset(e, lba), Extent(e, n);
    SaneExtent(e, n);
    if at < lba {
      OffsetsApart(e, at, lba);
      WriteOutside(e, image, lba, data, n, at, u, x, o, Offset(e, at));
    } else {
      var i := at - lba;
      OffsetStep(e, lba, i);
      MulNonneg(i, u);
      if i < q {
        MulGap(i, q, u);
        WriteInside(e, image, lba, data, n, i, u, x, o, i * u);
      } else {
        MulMono(q, i, u);
        WriteOutside(e, image, lba, data, n, at, u, x, o, o + i * u);
      }
    }
  }

  /** Nothing before the partition changes. */
  lemma WriteKeepsPrefix(e: Env, image: seq<byte>, lba: nat, data: seq<byte>, n: nat, i: nat)
    requires Sane(e) && n <= |data|
    requires i < Min(|image|, e.partition * SECTOR)
    ensures i < |WriteBlocks(e, image, lba, data, n)| && WriteBlocks(e, image, lba, data, n)[i] == image[i]
  {
    if e.partition <= lba {
      MulNonneg((lba - e.partition) * SECTOR, e.calcBlock);
    }
  }

  /** A read yields the consecutive blocks at its address, and fails only if one is missing. */
  lemma ReadRefinesBlockMap(e: Env, image: seq<byte>, lba: nat, n: nat)
    requires Sane(e) && 0 < n && n + SECTOR * e.calcBlock <= TWO_64 && e.partition <= lba
    ensures var q := UnitCount(e, n);
      && q == CeilDiv(n, Unit(e)) > 0
      && (ReadBlocks(e, image, lba, n).Some? <==> Present(e, image, lba + q - 1))
      && (ReadBlocks(e, image, lba, n).Some? ==>
            var r := ReadBlocks(e, image, lba, n).value;
            && |r| == q * Unit(e)
            && forall i :: 0 <= i < q ==>
                0 <= i * Unit(e) <= i * Unit(e) + Unit(e) <= |r|
                && r[i * Unit(e)..i * Unit(e) + Unit(e)] == Block(e, image, lba + i))
  {
    hide Unit, UnitCount, CeilDiv, Offset, Extent, Block;
    var u, q, o, x := SECTOR * e.calcBlock, UnitCount(e, n), Offset(e, lba), Extent(e, n);
    SaneExtent(e, n);
    assert q > 0 by {
      CeilDivLeast(n, u, 0);
    }
    OffsetStep(e, lba, q - 1);
    assert (q - 1) * u == q * u - u;
    if ReadBlocks(e, image, lba, n).Some? {
      var r := ReadBlocks(e, image, lba, n).value;
      forall i | 0 <= i < q
        ensures 0 <= i * u <= i * u + u <= |r|
        ensures r[i * u..i * u + u] == Block(e, image, lba + i)
      {
        MulGap(i, q, u);
        MulNonneg(i, u);
        OffsetStep(e, lba, i);
        ReadStretch(e, image, r, o, x, lba + i, i * u, u);
      }
    }
  }

  lemma ReadStretch(e: Env, image: seq<byte>, r: seq<byte>, o: nat, x: nat, at: nat, j: nat, u: nat)
    requires o + x <= |image| && r == image[o..o + x] && j + u <= x
    requires e.partition <= at && u == SECTOR * e.calcBlock && Offset(e, at) == o + j
    ensures r[j..j + u] == Block(e, image, at)
  {
    hide Offset, View;
  }

  /** What is written is what is read, zero-padded to whole blocks. */
  lemma ReadAfterWrite(e: Env, image: seq<byte>, lba: nat, data: seq<byte>, n: nat)
    requires Sane(e) && n <= |data| && n + SECTOR * e.calcBlock <= TWO_64 && e.partition <= lba
    ensures UnitCount(e, n) * Unit(e) >= n
    ensures 0 < n ==> (ReadBlocks(e, WriteBlocks(e, image, lba, data, n), lba, n)
                       == Some(data[..n] + Zeros(UnitCount(e, n) * Unit(e) - n)))
  {
    SaneExtent(e, n);
    if 0 < n {
      var image' := WriteBlocks(e, image, lba, data, n);
      var o, x := Offset(e, lba), Extent(e, n);
      assert image'[o..o + x] == Padded(e, data, n);
    }
  }

  /** The byte a block starts at: 512 for each sector before the partition, a unit for each block within it. */
  lemma OffsetIs(e: Env, lba: nat, u: nat)
    requires e.partition <= lba && u == SECTOR * e.calcBlock
    ensures Offset(e, lba) == 512 * e.partition + (lba - e.partition) * u
  {
    var d := lba - e.partition;
    assert d * SECTOR * e.calcBlock == d * (SECTOR * e.calcBlock);
  }

  /** A write byte by byte: the data at their place, zeros up to the end of the last unit, and every other byte
      as it was; a hole past the old end reads as zero. */
  lemma WriteBytes(e: Env, image: seq<byte>, lba: nat, data: seq<byte>, n: nat, u: nat, o: nat, q: nat, p: nat)
    requires Sane(e) && 0 < n <= |data| && n + u <= TWO_64 && e.partition <= lba && u == SECTOR * e.calcBlock
    requires o == 512 * e.partition + (lba - e.partition) * u && q == CeilDiv(n, u)
    ensures var r := WriteBlocks(e, image, lba, data, n);
      && |r| == Max(|image|, o + q * u) && n <= q * u
      && (p < |r| ==> r[p] == if o <= p < o + n then data[p - o]
                              else if p < o || o + q * u <= p then if p < |image| then image[p] else 0
                              else 0)
  {
    hide Offset, UnitCount, CeilDiv, Unit, Extent;
    SaneExtent(e, n);
    OffsetIs(e, lba, u);
    PaddedIs(e, data, n, q * u);
  }

  /** A read in bytes: the units that hold the n bytes asked for, if the image goes that far. */
  lemma ReadBytes(e: Env, image: seq<byte>, lba: nat, n: nat, u: nat, o: nat, q: nat)
    requires Sane(e) && 0 < n && n + u <= TWO_64 && e.partition <= lba && u == SECTOR * e.calcBlock
    requires o == 512 * e.partition + (lba - e.partition) * u && q == CeilDiv(n, u)
    ensures q * u >= n
    ensures ReadBlocks(e, image, lba, n) == if o + q * u <= |image| then Some(image[o..o + q * u]) else None
  {
    hide Offset, UnitCount, CeilDiv, Unit, Extent;
    SaneExtent(e, n);
    OffsetIs(e, lba, u);
  }

  // ---------------------------------------------------------------- the environment object

  /** The disk image file. */
  class DiskFile {
    var image: seq<byte>

    constructor (image: seq<byte>)
      ensures this.image == image
    {
      this.image := image;
    }
  }

  /** An open raw environment (rawenv_t). */
  class RawEnv {
    const file: DiskFile
    var partition: nat
    var calcBlock: nat
    var confBlock: nat

    ghost function Fields(): Env
      reads this
    {
      Env(partition, calcBlock, confBlock)
    }

    /** startup */
    constructor (file: DiskFile, partition: nat, confBlock: nat)
      ensures this.file == file
      ensures Fields() == Startup(partition, confBlock)
    {
      this.file := file;
      this.partition := partition;
      this.confBlock := confBlock;
      var sectors := confBlock / SECTOR + (if confBlock % SECTOR != 0 then 1 else 0);
      if sectors == 0 {
        sectors := 1;
      }
      this.calcBlock := sectors;
    }

    method SetBlockSize(confBlock: nat)
      modifies this
      ensures Fields() == WithBlockSize(old(Fields()), confBlock)
    {
      this.confBlock := confBlock;
      calcBlock := SafeDiv((confBlock + SECTOR - 1) % TWO_32, SECTOR);
    }

    method Read(pos: nat, bytes: nat) returns (data: Option<seq<byte>>)
      ensures data == ReadBlocks(Fields(), file.image, pos, bytes)
    {
      if pos < partition {
        return None;
      }
      var e := Env(partition, calcBlock, confBlock);
      var allocSize := Extent(e, bytes);
      var at := Offset(e, pos);
      if allocSize == 0 {
        return Some([]);
      }
      if at + allocSize > |file.image| {
        return None;
      }
      data := Some(file.image[at..at + allocSize]);
    }

    method Write(data: seq<byte>, pos: nat, bytes: nat)
      requires bytes <= |data|
      requires Sane(Fields()) && bytes + SECTOR * calcBlock <= TWO_64
      modifies file
      ensures file.image == WriteBlocks(Fields(), old(file.image), pos, data, bytes)
    {
      if pos < partition {
        return;
      }
      var e := Env(partition, calcBlock, confBlock);
      SaneExtent(e, bytes);
      var buf := data[..bytes] + Zeros(Extent(e, bytes) - bytes);
      file.image := Splice(file.image, Offset(e, pos), buf);
    }
  }
}
