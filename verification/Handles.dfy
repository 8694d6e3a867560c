/** Open files: the cursor and the chunked read and write loops of frat.c. */
module Handles {
  import opened Arith
  import opened ClusterMap
  import opened FileStore
  import opened Write
  import opened Limits
  import opened Files
  import opened Volume
  import Runs

  class Handle {
    const vol: Volume
    const file: nat
    var progress: nat

    /** floadh of an existing file: the cursor starts past the metadata block. */
    constructor (vol: Volume, file: nat)
      ensures this.vol == vol && this.file == file && progress == vol.geo.blockSize
    {
      this.vol := vol;
      this.file := file;
      this.progress := vol.geo.blockSize;
    }

    ghost predicate Valid()
      reads this, vol, vol.slots, vol.disk
    {
      vol.Valid() && LiveHead(vol.slots[..], file) && progress < TWO_64
    }

    /** _fseek */
    method SeekTo(p: nat)
      requires Valid()
      modifies this
      ensures Valid() && progress == Seek(p, vol.geo.blockSize)
    {
      var low := vol.geo.blockSize;
      progress := if p > TWO_64 - 1 - low then TWO_64 - 1 else low + p;
    }

    /** _fseeko */
    method SeekRelative(delta: int)
      requires Valid() && -0x8000_0000_0000_0000 <= delta < 0x8000_0000_0000_0000
      modifies this
      ensures Valid() && progress == SeekBy(old(progress), delta, vol.geo.blockSize)
    {
      if delta < 0 {
        var low := vol.geo.blockSize;
        var distance := -(delta + 1) + 1;
        if progress <= low || distance >= progress - low {
          progress := low;
        } else {
          progress := progress - distance;
        }
      } else if delta > TWO_64 - 1 - progress {
        progress := TWO_64 - 1;
      } else {
        progress := progress + delta;
      }
    }

    /** The loop of _fwrite. */
    method WriteChunks(from: nat, data: seq<byte>) returns (pos: nat)
      requires vol.Valid() && LiveHead(vol.slots[..], file)
      modifies vol, vol.slots, vol.disk
      ensures vol.Valid() && pos == if data == [] then from else (from + |data|) % TWO_64
      ensures LoopEnds(old(vol.State()), file, from, data, vol.geo.blockSize, vol.State())
      ensures Served(vol.geo, file, old(vol.slots[..]), old(vol.disk.image), vol.slots[..], vol.disk.image)
    {
      hide Midway, Inv, WriteLoop, WriteStep, LoopEnds, AllBacked, MapGrew, Owned;
      ghost var m0, image0 := vol.slots[..], vol.disk.image;
      var size := vol.geo.blockSize;
      ghost var r := WriteLoop(vol.State(), file, from, data, size);
      var left: nat, written: nat := |data|, 0;
      pos := from;
      MidwayStart(vol.State(), file, from, data, size, r);
      ServedNothing(vol.geo, file, m0, image0);
      while left > 0
        invariant written + left == |data|
        invariant vol.Valid() && Midway(vol.State(), file, from, data, size, Writing(pos, written, left), r)
        invariant Served(vol.geo, file, m0, image0, vol.slots[..], vol.disk.image)
      {
        ghost var st, m, image := vol.State(), vol.slots[..], vol.disk.image;
        DivMod(pos, size);
        var chunk := size - pos % size;
        if chunk > left {
          chunk := left;
        }
        var d := data[written..written + chunk];
        vol.WriteChunk(file, pos, d);
        var written', pos', left' := written + chunk, (pos + chunk) % TWO_64, left - chunk;
        MidwayStep(st, file, from, data, size, Writing(pos, written, left), r, d, vol.State(),
                   Writing(pos', written', left'));
        ServedTrans(vol.geo, file, m0, image0, m, image, vol.slots[..], vol.disk.image);
        written, pos, left := written', pos', left';
      }
      MidwayEnd(vol.State(), file, from, data, size, Writing(pos, written, left), r);
    }

    /** The time stamp and the test for a read-only file. */
    method StampForWrite(now: Clock) returns (writable: bool)
      requires vol.Valid() && LiveHead(vol.slots[..], file) && Ticks(now)
      modifies vol.disk
      ensures vol.Valid() && vol.State() == StampHead(old(vol.State()), file, now, true, vol.geo.blockSize)
      ensures Served(vol.geo, file, vol.slots[..], old(vol.disk.image), vol.slots[..], vol.disk.image)
      ensures writable == !Flag(vol.State().map_[file].attrs, READ_ONLY)
    {
      vol.Stamp(file, now, true);
      var head := vol.FindIndexed(vol.slots[file].code, 0);
      FindUnique(vol.slots[..], vol.slots[file].code, 0, file);
      writable := !Flag(vol.slots[head].attrs, READ_ONLY);
    }

    /** _fwrite */
    method Write(data: seq<byte>, now: Clock) returns (n: nat)
      requires Valid() && Ticks(now)
      modifies this, vol, vol.slots, vol.disk
      ensures Valid()
      ensures WriteFile(old(vol.State()), file, old(progress), data, now, vol.geo.blockSize)
              == Outcome(vol.State(), progress, n, [])
      ensures Served(vol.geo, file, old(vol.slots[..]), old(vol.disk.image), vol.slots[..], vol.disk.image)
    {
      hide Inv, WriteFile, Stamped, AllBacked, LoopEnds;
      ghost var g, m0, image0, st, from := vol.geo, vol.slots[..], vol.disk.image, vol.State(), progress;
      n := 0;
      if |data| == 0 {
        ServedNothing(g, file, m0, image0);
        WriteNothing(st, file, from, data, now, g.blockSize);
      } else {
        var writable := StampForWrite(now);
        ghost var image1, st1 := vol.disk.image, vol.State();
        if writable {
          progress := WriteChunks(progress, data);
          n := |data|;
          ServedTrans(g, file, m0, image0, m0, image1, vol.slots[..], vol.disk.image);
        }
        WriteIs(st, st1, vol.State(), file, from, data, now, writable, progress, n, g.blockSize);
      }
    }

    /** The loop of _fread; it breaks off at a missing block. */
    method ReadChunks(from: nat, n: nat) returns (out: seq<byte>, pos: nat)
      requires vol.Valid() && LiveHead(vol.slots[..], file) && from < TWO_64
      ensures ReadsAs(vol.State(), file, from, n, vol.geo.blockSize, out)
      ensures pos == (from + |out|) % TWO_64
    {
      hide Halfway, ReadsAs, Inv, ReadLoop, Load, AllBacked;
      var size := vol.geo.blockSize;
      ghost var st := vol.State();
      var left: nat := n;
      pos, out := from, [];
      HalfwayStart(st, file, from, n, size);
      while left > 0
        invariant |out| + left == n
        invariant Halfway(st, file, from, n, size, Reading(pos, left, out))
      {
        DivMod(pos, size);
        var off, x := pos % size, pos / size;
        var blk := vol.ReadOne(file, x);
        if blk.None? {
          HalfwayEnd(st, file, from, n, size, Reading(pos, left, out), x);
          return;
        }
        var chunk := Min(size - off, left);
        var piece := blk.value[off..off + chunk];
        var pos', left', out' := (pos + chunk) % TWO_64, left - chunk, out + piece;
        SliceOfPrefix(blk.value, size, off, off + chunk, piece);
        HalfwayStep(st, file, from, n, size, Reading(pos, left, out), Reading(pos', left', out'), x, off, piece);
        pos, left, out := pos', left', out';
      }
      HalfwayEnd(st, file, from, n, size, Reading(pos, left, out), 0);
    }

    /** _fread */
    method Read(n: nat, now: Clock) returns (count: nat, data: seq<byte>)
      requires Valid() && Ticks(now)
      modifies this, vol.disk
      ensures Valid()
      ensures ReadFile(old(vol.State()), file, old(progress), n, now, vol.geo.blockSize)
              == Outcome(vol.State(), progress, count, data)
      ensures Served(vol.geo, file, vol.slots[..], old(vol.disk.image), vol.slots[..], vol.disk.image)
    {
      hide Inv, ReadLoop, Stamped, Tails, AllBacked;
      var size := vol.Size(file);
      if ((progress + TWO_64 - vol.geo.blockSize) % TWO_64 + n) % TWO_64 > size {
        ServedNothing(vol.geo, file, vol.slots[..], vol.disk.image);
        return 0, [];
      }
      vol.Stamp(file, now, false);
      data, progress := ReadChunks(progress, n);
      count := |data|;
    }
  }

  lemma WriteNothing(st: Store, h: nat, from: nat, data: seq<byte>, now: Clock, B: nat)
    requires Shaped(st, B) && h < |st.map_| && B >= META_SIZE && Ticks(now) && |data| == 0
    ensures WriteFile(st, h, from, data, now, B) == Outcome(st, from, 0, [])
  {
  }

  /** floadh: the file is created first if that is asked for; the handle of a missing file is null. */
  method OpenFile(vol: Volume, path: string, create: Option<Runs.Flags>, w: Runs.World) returns (handle: Handle?)
    requires vol.Valid() && Runs.Sensible(w, vol.geo.blockSize)
    modifies vol, vol.slots, vol.disk
    ensures vol.Valid()
    ensures vol.State() == if create.None? then old(vol.State())
                           else Runs.Create(old(vol.State()), path, create.value, w, vol.geo.blockSize)
    ensures handle == null <==> !Has(vol.slots[..], w.hash(path), 0)
    ensures handle != null ==>
      && fresh(handle) && handle.vol == vol && handle.Valid()
      && handle.file == Find(vol.slots[..], w.hash(path), 0) && handle.progress == vol.geo.blockSize
  {
    if create.Some? {
      vol.Create(path, create.value, w, {});
    }
    var k := vol.FindIndexed(w.hash(path), 0);
    if k == vol.slots.Length {
      return null;
    }
    handle := new Handle(vol, k);
  }

  /** The parts of _fwrite put together. */
  lemma WriteIs(st: Store, st1: Store, r: Store, h: nat, from: nat, data: seq<byte>, now: Clock,
                writable: bool, pos: nat, n: nat, B: nat)
    requires Shaped(st, B) && h < |st.map_| && B >= META_SIZE && Ticks(now) && data != []
    requires st1 == StampHead(st, h, now, true, B) && writable == !Flag(st1.map_[h].attrs, READ_ONLY)
    requires writable ==> LoopEnds(st1, h, from, data, B, r) && pos == (from + |data|) % TWO_64 && n == |data|
    requires !writable ==> r == st1 && pos == from && n == 0
    ensures WriteFile(st, h, from, data, now, B) == Outcome(r, pos, n, [])
  {
  }

  /** The variables of the read loop. */
  datatype Reading = Reading(pos: nat, left: nat, out: seq<byte>)

  /** The read loop with q.out read so far: what is left completes it. */
  ghost predicate Halfway(st: Store, h: nat, from: nat, n: nat, B: nat, q: Reading)
  {
    && Shaped(st, B) && h < |st.map_| && |q.out| + q.left == n && q.pos == (from + |q.out|) % TWO_64
    && ReadLoop(st, h, from, n, B) == q.out + ReadLoop(st, h, q.pos, q.left, B)
  }

  lemma HalfwayStart(st: Store, h: nat, from: nat, n: nat, B: nat)
    requires Shaped(st, B) && h < |st.map_| && from < TWO_64
    ensures Halfway(st, h, from, n, B, Reading(from, n, []))
  {
    NoWrap(from);
  }

  lemma HalfwayStep(st: Store, h: nat, from: nat, n: nat, B: nat, q: Reading, q': Reading,
                    x: nat, off: nat, piece: seq<byte>)
    requires Halfway(st, h, from, n, B, q) && q.left > 0 && x == q.pos / B && off == q.pos % B
    requires var len := Min(B - off, q.left);
      Load(st, h, x, B).Some? && piece == Load(st, h, x, B).value[off..off + len]
    requires q' == Reading((q.pos + |piece|) % TWO_64, q.left - |piece|, q.out + piece)
    ensures Halfway(st, h, from, n, B, q')
  {
    hide ReadLoop, Load;
    NextPos(from, |q.out|, |piece|, q.pos, q'.pos);
    ReadUnrollWrap(st, h, q.pos, q.left, x, Load(st, h, x, B).value, |piece|, piece, q'.pos, q'.left, B);
    Regroup(q.out, piece, ReadLoop(st, h, q'.pos, q'.left, B));
  }

  lemma SliceOfPrefix(b: seq<byte>, n: nat, i: nat, j: nat, piece: seq<byte>)
    requires i <= j <= n <= |b| && piece == b[i..j]
    ensures piece == b[..n][i..j]
  {
  }

  lemma Regroup(a: seq<byte>, b: seq<byte>, c: seq<byte>)
    ensures a + (b + c) == (a + b) + c
  {
  }

  lemma ReadUnrollWrap(st: Store, h: nat, pos: nat, left: nat, x: nat, blk: seq<byte>, chunk: nat, piece: seq<byte>,
                       pos': nat, left': nat, B: nat)
    requires Shaped(st, B) && h < |st.map_| && left > 0 && chunk == Min(B - pos % B, left)
    requires x == pos / B && Load(st, h, x, B) == Some(blk) && piece == blk[pos % B..pos % B + chunk]
    requires pos' == (pos + chunk) % TWO_64 && left' == left - chunk
    ensures ReadLoop(st, h, pos, left, B) == piece + ReadLoop(st, h, pos', left', B)
  {
    hide Load, Min;
    assert Chunk(pos, left, B) == chunk;
  }

  lemma HalfwayEnd(st: Store, h: nat, from: nat, n: nat, B: nat, q: Reading, x: nat)
    requires Halfway(st, h, from, n, B, q)
    requires q.left > 0 ==> x == q.pos / B && Load(st, h, x, B).None?
    ensures ReadsAs(st, h, from, n, B, q.out) && q.pos == (from + |q.out|) % TWO_64
  {
    assert q.out + [] == q.out;
  }

  /** The variables of the write loop. */
  datatype Writing = Writing(pos: nat, written: nat, left: nat)

  /** The write loop after q.written bytes: what is left leads to the same end. */
  ghost predicate Midway(st: Store, h: nat, from: nat, data: seq<byte>, B: nat, q: Writing, r: Store)
  {
    && q.written + q.left == |data| && q.pos == (if q.written == 0 then from else (from + q.written) % TWO_64)
    && LoopEnds(st, h, q.pos, data[q.written..], B, r)
  }

  lemma MidwayStart(st: Store, h: nat, from: nat, data: seq<byte>, B: nat, r: Store)
    requires Shaped(st, B) && h < |st.map_| && r == WriteLoop(st, h, from, data, B)
    ensures Midway(st, h, from, data, B, Writing(from, 0, |data|), r)
  {
    assert data[0..] == data;
  }

  /** d is the next chunk of data, and q' the state after it. */
  ghost predicate Turns(data: seq<byte>, B: nat, q: Writing, d: seq<byte>, q': Writing)
  {
    && B > 0 && q.left > 0 && q.written + q.left == |data| && |d| == Min(B - q.pos % B, q.left)
    && d == data[q.written..q.written + |d|]
    && q' == Writing((q.pos + |d|) % TWO_64, q.written + |d|, q.left - |d|)
  }

  lemma MidwayStep(st: Store, h: nat, from: nat, data: seq<byte>, B: nat, q: Writing, r: Store,
                   d: seq<byte>, st1: Store, q': Writing)
    requires Midway(st, h, from, data, B, q, r) && Turns(data, B, q, d, q')
    requires q.pos % B + |d| <= B && st1 == WriteStep(st, h, q.pos, d, B)
    ensures Midway(st1, h, from, data, B, q', r)
  {
    hide WriteLoop, WriteStep, LoopEnds, Turns, Chunk;
    TurnIs(data, B, q, d, q');
    UnrollWrap(st, h, q.pos, data[q.written..], r, d, st1, B);
    NextPos(from, q.written, |d|, q.pos, q'.pos);
  }

  lemma NextPos(from: nat, written: nat, n: nat, pos: nat, pos': nat)
    requires pos == (from + written) % TWO_64 || (written == 0 && pos == from)
    requires pos' == (pos + n) % TWO_64
    ensures pos' == (from + (written + n)) % TWO_64
  {
    WrapStep(from, written, n);
  }

  lemma TurnIs(data: seq<byte>, B: nat, q: Writing, d: seq<byte>, q': Writing)
    requires Turns(data, B, q, d, q')
    ensures q' == Writing((q.pos + |d|) % TWO_64, q.written + |d|, q.left - |d|) && q'.written > 0
    ensures B > 0 && data[q.written..] != [] && q.pos % B + |d| <= B
    ensures d == data[q.written..][..Chunk(q.pos, |data[q.written..]|, B)]
    ensures data[q.written..][|d|..] == data[q'.written..]
  {
  }

  lemma MidwayEnd(st: Store, h: nat, from: nat, data: seq<byte>, B: nat, q: Writing, r: Store)
    requires Midway(st, h, from, data, B, q, r) && q.left == 0
    ensures r == st && q.pos == if data == [] then from else (from + |data|) % TWO_64
  {
  }

  lemma WrapStep(p: nat, a: nat, b: nat)
    ensures ((p + a) % TWO_64 + b) % TWO_64 == (p + (a + b)) % TWO_64
  {
    ModAdd(p + a, b);
  }
}
