/** The mounted volume and its file handles as frat.c updates them: in place, by scanning and chunking. */
module Volume {
  import opened Arith
  import opened Raw
  import opened Layout
  import opened ClusterMap
  import opened FileStore
  import opened Files
  import opened Image
  import opened Codec
  import opened Mount
  import Runs

  /** Rewriting block k of the image rewrites block k of the view. */
  lemma PutView(g: Geo, image: seq<byte>, k: nat, data: seq<byte>, n: nat, m: nat)
    requires Sound(g) && 0 < n <= |data| && n <= g.blockSize && k < m
    ensures Blocks(g, WriteBlocks(EnvOf(g), image, DataLba(g, k), data, n), m)
            == Blocks(g, image, m)[k := data[..n] + Zeros(g.blockSize - n)]
  {
    var image' := WriteBlocks(EnvOf(g), image, DataLba(g, k), data, n);
    forall j | 0 <= j < m
      ensures Blocks(g, image', m)[j] == Blocks(g, image, m)[k := data[..n] + Zeros(g.blockSize - n)][j]
    {
      PutBlock(g, image, k, data, n, j);
    }
  }

  /** Every block in use is held by the image, but for those of slots still being created. */
  ghost predicate AllBacked(g: Geo, image: seq<byte>, m: Slots, pending: set<nat>)
  {
    forall k: nat {:trigger At(m, k)} :: At(m, k) && !Free(m[k]) && k !in pending ==> Backed(g, image, k)
  }

  /** A map and an image that belong together. */
  ghost predicate Ready(g: Geo, m: Slots, image: seq<byte>, pending: set<nat>)
  {
    Sound(g) && |m| == SlotCount(g) < TWO_32 && Inv(m) && AllBacked(g, image, m, pending)
  }

  /** The state of the file operations, as map, hint and image give it. */
  ghost function ViewOf(g: Geo, m: Slots, hint: nat, image: seq<byte>): (st: Store)
    requires Sound(g)
    ensures Shaped(st, g.blockSize) && st.map_ == m && st.hint == hint
  {
    Store(m, hint, Blocks(g, image, |m|))
  }

  /** A write to slot k keeps the blocks in use held, k among them. */
  lemma PutBacks(g: Geo, image: seq<byte>, m: Slots, m': Slots, k: nat, data: seq<byte>, n: nat, pending: set<nat>)
    requires Sound(g) && 0 < n <= |data| && n <= g.blockSize && k < |m| == |m'|
    requires AllBacked(g, image, m, pending) && forall j :: 0 <= j < |m| && j != k ==> m'[j] == m[j]
    ensures AllBacked(g, WriteBlocks(EnvOf(g), image, DataLba(g, k), data, n), m', pending - {k})
  {
    forall j: nat | At(m', j) && !Free(m'[j]) && j !in pending - {k}
      ensures Backed(g, WriteBlocks(EnvOf(g), image, DataLba(g, k), data, n), j)
    {
      assert At(m, j);
      PutBlock(g, image, k, data, n, j);
    }
  }

  lemma BackedMore(g: Geo, image: seq<byte>, m: Slots, s: set<nat>, t: set<nat>)
    requires AllBacked(g, image, m, s) && s <= t
    ensures AllBacked(g, image, m, t)
  {
  }

  /** The slots of the file at h: its head and its data blocks. */
  ghost function Owned(m: Slots, h: nat): set<nat>
    requires h < |m|
  {
    set k: nat | 0 <= k < |m| && (k == h || IsTail(m[k], m[h].code))
  }

  lemma OwnedMore(m: Slots, m': Slots, h: nat)
    requires LiveHead(m, h) && MapGrew(m, m', m[h].code)
    ensures m'[h] == m[h] && Owned(m, h) <= Owned(m', h)
  {
    assert At(m, h);
    forall k | k in Owned(m, h)
      ensures k in Owned(m', h)
    {
      assert At(m, k);
    }
  }

  /** All that one chunk or one stamp may do to map and image on behalf of the file at h. */
  ghost predicate Served(g: Geo, h: nat, m: Slots, image: seq<byte>, m': Slots, image': seq<byte>)
  {
    && LiveHead(m, h) && LiveHead(m', h)
    && MapGrew(m, m', m[h].code) && m'[h] == m[h] && DiskFrame(g, image, image', Owned(m', h))
  }

  lemma ServedTrans(g: Geo, h: nat, m: Slots, image: seq<byte>, m': Slots, image': seq<byte>,
                    m'': Slots, image'': seq<byte>)
    requires Served(g, h, m, image, m', image') && Served(g, h, m', image', m'', image'')
    ensures Served(g, h, m, image, m'', image'')
  {
    MapGrewTrans(m, m', m'', m[h].code);
    OwnedMore(m', m'', h);
    DiskFrameTrans(g, image, image', image'', Owned(m', h), Owned(m'', h));
  }

  lemma ServedNothing(g: Geo, h: nat, m: Slots, image: seq<byte>)
    requires LiveHead(m, h)
    ensures Served(g, h, m, image, m, image)
  {
  }

  class Volume {
    const disk: DiskFile
    const geo: Geo
    const root: Root
    const rest: seq<byte>
    const slots: array<Slot>
    var lastAlloc: nat

    /** The in-memory root fmount builds from what it read. */
    constructor (disk: DiskFile, v: Mounted)
      ensures this.disk == disk && root == v.root && geo == GeoOf(v.loc, v.root) && rest == v.rest
      ensures fresh(slots) && slots[..] == v.slots && lastAlloc == 0
    {
      this.disk := disk;
      this.geo := GeoOf(v.loc, v.root);
      this.root := v.root;
      this.rest := v.rest;
      this.slots := new Slot[|v.slots|](i requires 0 <= i < |v.slots| => v.slots[i]);
      this.lastAlloc := 0;
    }

    ghost predicate Valid()
      reads this, slots, disk
    {
      Ready(geo, slots[..], disk.image, {})
    }

    ghost function State(): Store
      requires Sound(geo)
      reads this, slots, disk
    {
      ViewOf(geo, slots[..], lastAlloc, disk.image)
    }

    /** allocatecluster */
    method AllocateCluster() returns (k: nat)
      modifies this`lastAlloc
      ensures k == FreeFrom(slots[..], old(lastAlloc))
      ensures lastAlloc == if k < slots.Length then k else 0
    {
      var i := lastAlloc;
      while i < slots.Length
        invariant lastAlloc <= i
        invariant FreeFrom(slots[..], lastAlloc) == FreeFrom(slots[..], i)
        invariant lastAlloc == old(lastAlloc)
      {
        if slots[i].code.low == 0 && slots[i].code.high == 0 {
          lastAlloc := i;
          return i;
        }
        i := i + 1;
      }
      lastAlloc := 0;
      k := slots.Length;
    }

    /** __ffindhi: the index sought is stored in a 32-bit field first. */
    method FindIndexed(code: Fcode, index: nat) returns (k: nat)
      ensures k == Find(slots[..], code, index % TWO_32)
    {
      var x := index % TWO_32;
      k := 0;
      while k < slots.Length
        invariant k <= slots.Length
        invariant Find(slots[..], code, x) == FindFrom(slots[..], code, x, k)
      {
        if slots[k].code.high == code.high && slots[k].code.low == code.low && slots[k].index == x {
          return;
        }
        k := k + 1;
      }
    }

    /** The counting loop of __faddr. */
    method CountFamily(code: Fcode) returns (n: nat)
      ensures n == Members(slots[..], code)
    {
      n := 0;
      var i := 0;
      while i < slots.Length
        invariant i <= slots.Length
        invariant n == Members(slots[..i], code)
      {
        assert slots[..i + 1][..i] == slots[..i];
        if slots[i].code == code {
          n := n + 1;
        }
        i := i + 1;
      }
      assert slots[..i] == slots[..];
    }

    /** writeblocks through a fresh environment, as every caller in frat.c does it. */
    method WriteSlotBlock(k: nat, data: seq<byte>, n: nat)
      requires Sound(geo) && k < slots.Length && 0 < n <= |data| && n <= geo.blockSize
      modifies disk
      ensures disk.image == WriteBlocks(EnvOf(geo), old(disk.image), DataLba(geo, k), data, n)
    {
      OneBlock(geo, n);
      var re := new RawEnv(disk, geo.loc, geo.blockSize);
      re.Write(data, DataLba(geo, k), n);
    }

    /** The part of __faddr that fills slot k for the family at h. */
    method FillSlot(k: nat, h: nat)
      requires k < slots.Length && h < slots.Length
      modifies slots
      ensures slots[..] == old(slots[..])[k := NextSlot(old(slots[..]), h)]
    {
      hide Unmarked, Members;
      var n := CountFamily(slots[h].code);
      slots[k] := Slot(slots[h].code, Unmarked(slots[h].attrs), n);
    }

    /** __faddr; the slots in pending are marked but have no block on disk yet. */
    method AddBlock(h: nat, ghost pending: set<nat>) returns (k: nat)
      requires Ready(geo, slots[..], disk.image, pending) && LiveHead(slots[..], h)
      modifies this`lastAlloc, slots, disk
      ensures Ready(geo, slots[..], disk.image, pending)
      ensures State() == FileStore.AddBlock(old(State()), h, geo.blockSize)
      ensures k == FreeFrom(old(slots[..]), old(lastAlloc))
      ensures Served(geo, h, old(slots[..]), old(disk.image), slots[..], disk.image)
      ensures k < slots.Length ==> h < slots.Length && k in Owned(slots[..], h)
    {
      hide Inv, AllBacked, Served, Members, FreeFrom, WriteBlocks, Blocks, DataLba;
      ghost var m, hint, image := slots[..], lastAlloc, disk.image;
      k := AllocateCluster();
      if k < slots.Length {
        FillSlot(k, h);
        WriteSlotBlock(k, Zeros(geo.blockSize), geo.blockSize);
        AddedBlock(geo, m, hint, image, h, k, slots[..], disk.image, pending);
      } else {
        NoBlock(geo, m, hint, image, h);
      }
    }

    /** readblocks of slot k's block through a fresh environment. */
    method ReadSlotBlock(k: nat, n: nat) returns (r: seq<byte>)
      requires Valid() && k < slots.Length && !Free(slots[k]) && 0 < n <= geo.blockSize
      ensures |r| >= geo.blockSize && r[..geo.blockSize] == State().blocks[k]
    {
      LoadBlock(geo, slots[..], lastAlloc, disk.image, k, n);
      var re := new RawEnv(disk, geo.loc, geo.blockSize);
      var data := re.Read(DataLba(geo, k), n);
      r := data.value;
    }

    /** __fread1. The buffer is a whole block of the raw layer; its first blockSize bytes count. */
    method ReadOne(h: nat, index: nat) returns (r: Option<seq<byte>>)
      requires Valid() && LiveHead(slots[..], h)
      ensures r.Some? <==> Load(State(), h, index, geo.blockSize).Some?
      ensures r.Some? ==> |r.value| >= geo.blockSize
      ensures r.Some? ==> r.value[..geo.blockSize] == Load(State(), h, index, geo.blockSize).value
    {
      var k := h;
      if index != slots[h].index {
        k := FindIndexed(slots[h].code, index);
        if k == slots.Length {
          return None;
        }
      }
      var b := ReadSlotBlock(k, geo.blockSize);
      r := Some(b);
    }

    /** __fpush1 */
    method PushOne(h: nat, index: nat, buffer: seq<byte>)
      requires Valid() && LiveHead(slots[..], h) && |buffer| >= geo.blockSize
      modifies this`lastAlloc, slots, disk
      ensures Valid()
      ensures State() == Push(old(State()), h, index, buffer[..geo.blockSize], geo.blockSize)
      ensures Served(geo, h, old(slots[..]), old(disk.image), slots[..], disk.image)
    {
      ghost var m, hint, image, B, b := slots[..], lastAlloc, disk.image, geo.blockSize, buffer[..geo.blockSize];
      assert At(m, h);
      if index == slots[h].index {
        // a head carries the metadata flag: the write is rejected
        ServedNothing(geo, h, m, image);
        return;
      }
      var k := FindIndexed(slots[h].code, index);
      if k < slots.Length {
        FoundOwned(m, h, index % TWO_32);
        WriteSlotBlock(k, buffer, geo.blockSize);
        OverBlock(geo, m, hint, image, h, k, buffer, B, b, disk.image);
      } else {
        k := AddBlock(h, {});
        if k < slots.Length {
          ghost var m1, image1 := slots[..], disk.image;
          WriteSlotBlock(k, buffer, geo.blockSize);
          OverBlock(geo, m1, lastAlloc, image1, h, k, buffer, B, b, disk.image);
          ServedTrans(geo, h, m, image, m1, image1, m1, disk.image);
        }
      }
    }

    /** __fupdatetstamp */
    method Stamp(h: nat, now: Clock, wt: bool)
      requires Valid() && LiveHead(slots[..], h) && Ticks(now)
      modifies disk
      ensures Valid() && State() == StampHead(old(State()), h, now, wt, geo.blockSize)
      ensures Served(geo, h, slots[..], old(disk.image), slots[..], disk.image)
    {
      ghost var m, image, b := slots[..], disk.image, State().blocks[h];
      var info := ReadSlotBlock(h, META_SIZE);
      var info' := info[..40] + now.time + (if wt then now.time else info[48..56])
                   + now.date + (if wt then now.date else info[64..72]) + info[72..META_SIZE];
      WriteSlotBlock(h, info', META_SIZE);
      StampedBytes(b, info, info', now, wt, geo.blockSize);
      OverBlock(geo, m, lastAlloc, image, h, h, info', META_SIZE, Stamped(b, now, wt), disk.image);
    }

    /** One turn of the loop of _fwrite: read-modify-write for part of a block, a plain write for a whole one. */
    method WriteChunk(h: nat, pos: nat, d: seq<byte>)
      requires Valid() && LiveHead(slots[..], h) && pos % geo.blockSize + |d| <= geo.blockSize
      modifies this`lastAlloc, slots, disk
      ensures Valid() && State() == WriteStep(old(State()), h, pos, d, geo.blockSize)
      ensures Served(geo, h, old(slots[..]), old(disk.image), slots[..], disk.image)
    {
      DivMod(pos, geo.blockSize);
      var off, x := pos % geo.blockSize, pos / geo.blockSize;
      ghost var st := State();
      var buf := d;
      if |d| < geo.blockSize {
        var blk := ReadOne(h, x);
        buf := if blk.Some? then blk.value else Zeros(geo.blockSize);
        buf := buf[..off] + d + buf[off + |d|..];
        MergedBuffer(Load(st, h, x, geo.blockSize), blk, off, d, buf, geo.blockSize);
      } else {
        assert d[..geo.blockSize] == d;
      }
      StepPush(st, h, pos, d, x, off, buf[..geo.blockSize], geo.blockSize);
      PushOne(h, x, buf);
    }

    /** __fsize */
    method Size(h: nat) returns (size: nat)
      requires Valid() && LiveHead(slots[..], h)
      ensures size == SizeOf(State(), h, geo.blockSize)
    {
      ghost var m, c, t := slots[..], slots[h].code, Tails(slots[..], slots[h].code);
      TailsBelow(m, h);
      FindUnique(m, c, 0, h);
      assert t + 1 < TWO_32;
      size := 0;
      var cc := 0;
      var k := FindIndexed(slots[h].code, cc);
      while k < slots.Length
        invariant cc <= t + 1 && k == Find(m, c, cc)
        invariant size == if cc == 0 then 0 else Span(cc - 1, geo.blockSize)
        decreases t + 1 - cc
      {
        assert At(m, k);
        assert cc <= t;
        if !Flag(slots[k].attrs, METADATA) {
          size := size + geo.blockSize;
        }
        cc := cc + 1;
        Fits32(cc);
        k := FindIndexed(slots[h].code, cc);
      }
      SpanIs(t, geo.blockSize);
    }

    /** __ffremoveh for a file that exists. */
    method RemoveHead(code: Fcode)
      requires Valid() && code != NO_FILE && Has(slots[..], code, 0)
      modifies slots
      ensures Valid() && State() == Runs.RemoveHead(old(State()), code)
    {
      ghost var m := slots[..];
      var k := FindIndexed(code, 0);
      slots[k] := slots[k].(code := NO_FILE);
      assert slots[..] == m[k := Cleared(m[k])];
      ClearHeadInv(m, k);
      ClearedBacked(geo, disk.image, m, slots[..], {});
    }

    /** __ffremovelh */
    method RemoveFamily(code: Fcode)
      requires Valid()
      modifies slots
      ensures Valid() && slots[..] == WithoutFamily(old(slots[..]), code)
    {
      ghost var m := slots[..];
      var i := 0;
      while i < slots.Length
        invariant i <= slots.Length
        invariant slots[..i] == WithoutFamily(m, code)[..i] && slots[i..] == m[i..]
      {
        assert slots[i] == m[i];
        if slots[i].code.low == code.low && slots[i].code.high == code.high {
          slots[i] := slots[i].(code := NO_FILE);
        }
        i := i + 1;
      }
      assert slots[..] == slots[..i] == WithoutFamily(m, code);
      if code == NO_FILE {
        assert WithoutFamily(m, code) == m;
      } else {
        WithoutFamilyInv(m, code);
      }
      ClearedBacked(geo, disk.image, m, slots[..], {});
    }

    /** __fcreate. Ancestors that are missing are created on the way; inserting the entry into the
        parent directory extends it by w.gain blocks. */
    method Create(path: string, flags: Runs.Flags, w: Runs.World, ghost pending: set<nat>)
      requires Ready(geo, slots[..], disk.image, pending) && Runs.Sensible(w, geo.blockSize)
      modifies this`lastAlloc, slots, disk
      ensures Ready(geo, slots[..], disk.image, pending)
      ensures State() == Runs.Create(old(State()), path, flags, w, geo.blockSize)
      decreases |path|, 1
    {
      ghost var m, image := slots[..], disk.image;
      var c := w.hash(path);
      var old_ := FindIndexed(c, 0);
      if old_ < slots.Length {
        if !flags.force {
          return;
        }
        slots[old_] := slots[old_].(code := NO_FILE);
      }
      ghost var st0 := Runs.RemoveHead(old(State()), c);
      assert slots[..] == st0.map_;
      HeadRemoved(geo, m, lastAlloc, image, c, st0, pending);
      var f := AllocateCluster();
      if f < slots.Length {
        slots[f] := Slot(c, Runs.HeadAttrs(slots[f].attrs, flags), 0);
        ghost var st1 := Runs.Mark(st0, f, c, flags);
        assert slots[..] == st1.map_;
        HeadMarked(geo, st0, f, c, flags, image, pending);
        Enter(path, w, pending + {f});
        ghost var m2, image2 := slots[..], disk.image;
        WriteSlotBlock(f, w.meta(path), META_SIZE);
        HeadWritten(geo, m2, lastAlloc, image2, f, w, path, disk.image, pending);
      }
    }

    /** __fgetparent, floadhdir and the extend steps of __fdiradd. */
    method Enter(path: string, w: Runs.World, ghost pending: set<nat>)
      requires Ready(geo, slots[..], disk.image, pending) && Runs.Sensible(w, geo.blockSize)
      modifies this`lastAlloc, slots, disk
      ensures Ready(geo, slots[..], disk.image, pending)
      ensures State() == Runs.Enter(old(State()), path, w, geo.blockSize)
      decreases |path|, 0
    {
      var up := Runs.Parent(path);
      if up.None? {
        return;
      }
      var p, c := w.hash(up.value), w.hash(path);
      var h := FindIndexed(p, 0);
      if h == slots.Length {
        Create(up.value, Runs.PARENT, w, pending);
        h := FindIndexed(p, 0);
      }
      if h < slots.Length && Flag(slots[h].attrs, DIRECTORY) && p.low != c.low && p.high != c.high {
        ExtendBy(h, w.gain(up.value), pending);
      }
    }

    /** n calls of __faddr. */
    method ExtendBy(h: nat, n: nat, ghost pending: set<nat>)
      requires Ready(geo, slots[..], disk.image, pending) && LiveHead(slots[..], h)
      modifies this`lastAlloc, slots, disk
      ensures Ready(geo, slots[..], disk.image, pending)
      ensures State() == Runs.Extend(old(State()), h, n, geo.blockSize)
    {
      hide Inv, AllBacked, MapGrew, Owned, FileStore.AddBlock;
      ghost var r := Runs.Extend(State(), h, n, geo.blockSize);
      var i := 0;
      while i < n
        invariant i <= n && Ready(geo, slots[..], disk.image, pending) && LiveHead(slots[..], h)
        invariant Runs.Extend(State(), h, n - i, geo.blockSize) == r
      {
        var k := AddBlock(h, pending);
        i := i + 1;
      }
    }

    /** fuloadroot */
    method Flush()
      requires Coherent(Mounted(geo.loc, root, slots[..], rest)) && geo == GeoOf(geo.loc, root)
      modifies disk
      ensures disk.image == Flushed(old(disk.image), Mounted(geo.loc, root, slots[..], rest))
    {
      EnvSane(geo);
      MapBytesLength(slots[..]);
      var re := new RawEnv(disk, geo.loc, geo.blockSize);
      re.Write(RootBytes(root), geo.loc, ROOT_SIZE);
      re.Write(MapBytes(slots[..]) + rest, MapLba(geo), geo.clusterSize);
    }
  }

  /** The state after __faddr found no slot. */
  lemma NoBlock(g: Geo, m: Slots, hint: nat, image: seq<byte>, h: nat)
    requires Sound(g) && LiveHead(m, h) && FreeFrom(m, hint) == |m|
    ensures ViewOf(g, m, 0, image) == FileStore.AddBlock(ViewOf(g, m, hint, image), h, g.blockSize)
    ensures Served(g, h, m, image, m, image)
  {
  }

  /** The state after __faddr took slot k. */
  lemma AddedBlock(g: Geo, m: Slots, hint: nat, image: seq<byte>, h: nat, k: nat, m': Slots, image': seq<byte>,
                   pending: set<nat>)
    requires Ready(g, m, image, pending) && LiveHead(m, h)
    requires k == FreeFrom(m, hint) < |m| && m' == m[k := NextSlot(m, h)]
    requires image' == WriteBlocks(EnvOf(g), image, DataLba(g, k), Zeros(g.blockSize), g.blockSize)
    ensures Ready(g, m', image', pending)
    ensures Served(g, h, m, image, m', image') && k in Owned(m', h)
    ensures ViewOf(g, m', k, image') == FileStore.AddBlock(ViewOf(g, m, hint, image), h, g.blockSize)
  {
    var z := Zeros(g.blockSize);
    NextSlotExtends(m, h, k);
    PutView(g, image, k, z, g.blockSize, |m|);
    assert z[..g.blockSize] + Zeros(g.blockSize - g.blockSize) == z;
    PutBacks(g, image, m, m', k, z, g.blockSize, pending);
    BackedMore(g, image', m', pending - {k}, pending);
    PutFrame(g, image, k, z, g.blockSize);
    assert At(m, h) && {k} <= Owned(m', h);
    DiskFrameTrans(g, image, image', image', {k}, Owned(m', h));
  }

  /** Writing over a block of the file at h. */
  lemma OverBlock(g: Geo, m: Slots, hint: nat, image: seq<byte>, h: nat, k: nat,
                  data: seq<byte>, n: nat, b: seq<byte>, image': seq<byte>)
    requires Ready(g, m, image, {}) && LiveHead(m, h) && k in Owned(m, h)
    requires 0 < n <= |data| && n <= g.blockSize && b == data[..n] + Zeros(g.blockSize - n)
    requires image' == WriteBlocks(EnvOf(g), image, DataLba(g, k), data, n)
    ensures Ready(g, m, image', {}) && Served(g, h, m, image, m, image')
    ensures ViewOf(g, m, hint, image') == ViewOf(g, m, hint, image).(blocks := ViewOf(g, m, hint, image).blocks[k := b])
  {
    PutView(g, image, k, data, n, |m|);
    PutBacks(g, image, m, m, k, data, n, {});
    assert {} - {k} == {};
    PutFrame(g, image, k, data, n);
    assert {k} <= Owned(m, h);
    DiskFrameTrans(g, image, image', image', {k}, Owned(m, h));
  }

  /** The block a lookup finds belongs to the file. */
  lemma FoundOwned(m: Slots, h: nat, x: nat)
    requires Inv(m) && LiveHead(m, h) && Has(m, m[h].code, x)
    ensures Find(m, m[h].code, x) in Owned(m, h)
  {
    if x == 0 {
      FindUnique(m, m[h].code, 0, h);
    }
  }

  /** The file's own block k, as the image gives it. */
  lemma LoadBlock(g: Geo, m: Slots, hint: nat, image: seq<byte>, k: nat, n: nat)
    requires Ready(g, m, image, {}) && k < |m| && !Free(m[k]) && 0 < n <= g.blockSize
    ensures var r := ReadBlocks(EnvOf(g), image, DataLba(g, k), n);
      r.Some? && |r.value| >= g.blockSize && r.value[..g.blockSize] == ViewOf(g, m, hint, image).blocks[k]
  {
    assert At(m, k);
    GetBlock(g, image, k, n);
  }

  /** The stamped record, padded to a block. */
  lemma StampedBytes(b: seq<byte>, info: seq<byte>, info': seq<byte>, now: Clock, wt: bool, B: nat)
    requires META_SIZE <= B <= |info| && b == info[..B] && Ticks(now)
    requires info' == info[..40] + now.time + (if wt then now.time else info[48..56])
                      + now.date + (if wt then now.date else info[64..72]) + info[72..META_SIZE]
    ensures |info'| == META_SIZE && Stamped(b, now, wt) == info'[..META_SIZE] + Zeros(B - META_SIZE)
  {
    SliceOfFirst(b, info[B..], 0, 40);
    SliceOfFirst(b, info[B..], 48, 56);
    SliceOfFirst(b, info[B..], 64, 72);
    SliceOfFirst(b, info[B..], 72, META_SIZE);
    assert b + info[B..] == info;
    assert info'[..META_SIZE] == info';
  }

  lemma StepPush(st: Store, h: nat, pos: nat, d: seq<byte>, x: nat, off: nat, b: seq<byte>, B: nat)
    requires Shaped(st, B) && h < |st.map_| && x == pos / B && off == pos % B && off + |d| <= B
    requires b == Merged(Load(st, h, x, B), off, d, B)
    ensures WriteStep(st, h, pos, d, B) == Push(st, h, x, b, B)
  {
  }

  lemma Fits32(n: nat)
    requires n < TWO_32
    ensures n % TWO_32 == n
  {
  }

  /** The buffer a partial chunk pushes holds the merged block. */
  lemma MergedBuffer(l: Option<seq<byte>>, blk: Option<seq<byte>>, off: nat, d: seq<byte>, buf: seq<byte>, B: nat)
    requires off + |d| <= B && |d| < B && (l.Some? ==> |l.value| == B) && (blk.Some? <==> l.Some?)
    requires blk.Some? ==> |blk.value| >= B && blk.value[..B] == l.value
    requires var o := if blk.Some? then blk.value else Zeros(B); buf == o[..off] + d + o[off + |d|..]
    ensures |buf| >= B && buf[..B] == Merged(l, off, d, B)
  {
    if blk.Some? {
      assert buf[..B] == l.value[..off] + d + l.value[off + |d|..];
    }
  }

  lemma ClearedBacked(g: Geo, image: seq<byte>, m: Slots, m': Slots, pending: set<nat>)
    requires AllBacked(g, image, m, pending) && |m'| == |m|
    requires forall k :: 0 <= k < |m| ==> m'[k] == m[k] || m'[k] == Cleared(m[k])
    ensures AllBacked(g, image, m', pending)
  {
    forall k: nat | At(m', k) && !Free(m'[k]) && k !in pending
      ensures Backed(g, image, k)
    {
      assert At(m, k);
    }
  }

  lemma HeadRemoved(g: Geo, m: Slots, hint: nat, image: seq<byte>, c: Fcode, st0: Store, pending: set<nat>)
    requires Ready(g, m, image, pending) && c != NO_FILE && st0 == Runs.RemoveHead(ViewOf(g, m, hint, image), c)
    ensures Ready(g, st0.map_, image, pending) && !Has(st0.map_, c, 0) && FileStore.Valid(st0, g.blockSize)
    ensures st0 == ViewOf(g, st0.map_, hint, image)
  {
    Runs.RemoveHeadInv(ViewOf(g, m, hint, image), c, g.blockSize);
    ClearedBacked(g, image, m, st0.map_, pending);
  }

  lemma HeadMarked(g: Geo, st0: Store, f: nat, c: Fcode, flags: Runs.Flags, image: seq<byte>, pending: set<nat>)
    requires Ready(g, st0.map_, image, pending) && FileStore.Valid(st0, g.blockSize) && !Has(st0.map_, c, 0)
    requires c != NO_FILE && Fits(c) && f < |st0.map_| && Free(st0.map_[f])
    requires st0 == ViewOf(g, st0.map_, st0.hint, image)
    ensures var st1 := Runs.Mark(st0, f, c, flags);
      Ready(g, st1.map_, image, pending + {f}) && st1 == ViewOf(g, st1.map_, f, image)
  {
    Runs.MarkKeeps(st0, f, c, flags, g.blockSize);
    var m, m' := st0.map_, Runs.Mark(st0, f, c, flags).map_;
    forall k: nat | At(m', k) && !Free(m'[k]) && k !in pending + {f}
      ensures Backed(g, image, k)
    {
      assert At(m, k);
    }
  }

  lemma HeadWritten(g: Geo, m: Slots, hint: nat, image: seq<byte>, f: nat, w: Runs.World, path: string,
                    image': seq<byte>, pending: set<nat>)
    requires Ready(g, m, image, pending + {f}) && f < |m| && Runs.Sensible(w, g.blockSize)
    requires image' == WriteBlocks(EnvOf(g), image, DataLba(g, f), w.meta(path), META_SIZE)
    ensures Ready(g, m, image', pending)
    ensures var st := ViewOf(g, m, hint, image);
      ViewOf(g, m, hint, image') == st.(blocks := st.blocks[f := Runs.HeadBlock(w, path, g.blockSize)])
  {
    PutView(g, image, f, w.meta(path), META_SIZE, |m|);
    PutBacks(g, image, m, m, f, w.meta(path), META_SIZE, pending + {f});
    BackedMore(g, image', m, pending + {f} - {f}, pending);
    assert w.meta(path)[..META_SIZE] == w.meta(path);
  }
}
