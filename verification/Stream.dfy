/** Main results about one file: it behaves as a growable byte sequence with a cursor. */
module Stream {
  import opened Arith
  import opened ClusterMap
  import opened FileStore
  import opened Write
  import opened Limits
  import opened Files

  /** A handle on a live file with a cursor past the metadata block. */
  ghost predicate Open(st: Store, h: nat, cursor: nat, B: nat)
  {
    Valid(st, B) && LiveHead(st.map_, h) && META_SIZE <= B <= cursor
  }

  /** What a write of data at cursor must achieve. */
  ghost predicate Accepted(st: Store, h: nat, cursor: nat, data: seq<byte>, B: nat)
  {
    && Open(st, h, cursor, B) && data != [] && cursor + |data| < TWO_64
    && !Flag(st.map_[h].attrs, READ_ONLY)
    && RoomFor(st, h, cursor, |data|, B)
  }

  function Need(st: Store, h: nat, cursor: nat, n: nat, B: nat): nat
    requires h < |st.map_| && B > 0 && n > 0
  {
    Missing(Tails(st.map_, st.map_[h].code), LastBlock(cursor, n, B))
  }

  lemma WriteFileIs(st: Store, h: nat, cursor: nat, data: seq<byte>, now: Clock, st1: Store, r: Store, B: nat)
    requires Accepted(st, h, cursor, data, B) && Ticks(now)
    requires st1 == StampHead(st, h, now, true, B) && r == WriteLoop(st1, h, cursor, data, B)
    ensures WriteFile(st, h, cursor, data, now, B) == Outcome(r, cursor + |data|, |data|, [])
    ensures LoopEnds(st1, h, cursor, data, B, r)
  {
    hide Inv, WriteLoop, RoomFor, Stamped;
    NoWrap(cursor + |data|);
  }

  /** The loop's effect, carried over to the whole operation. */
  lemma WriteLoopRuns(st: Store, h: nat, cursor: nat, data: seq<byte>, now: Clock, B: nat)
    returns (st1: Store, r: Store)
    requires Accepted(st, h, cursor, data, B) && Ticks(now)
    ensures st1 == StampHead(st, h, now, true, B) && Valid(st1, B)
    ensures WriteFile(st, h, cursor, data, now, B) == Outcome(r, cursor + |data|, |data|, [])
    ensures Grew(st1, r, h, Need(st, h, cursor, |data|, B), B)
    ensures Patched(st1, r, st.map_[h].code, cursor - B, data, B)
    ensures Contents(st1, st.map_[h].code, B) == Contents(st, st.map_[h].code, B)
  {
    var c, n := st.map_[h].code, Need(st, h, cursor, |data|, B);
    st1 := StampHead(st, h, now, true, B);
    r := WriteLoop(st1, h, cursor, data, B);
    WriteFileIs(st, h, cursor, data, now, st1, r, B);
    StampKeeps(st, h, now, true, c, B);
    LoopGrows(st1, r, h, cursor, data, n, B);
    LoopPatches(st1, r, h, c, cursor, data, n, B);
  }

  /** A write overwrites the stream at the cursor, zero-extending it to a block boundary. */
  lemma WriteOverwrites(st: Store, h: nat, cursor: nat, data: seq<byte>, now: Clock, B: nat)
    requires Accepted(st, h, cursor, data, B) && Ticks(now)
    ensures var c, o := st.map_[h].code, WriteFile(st, h, cursor, data, now, B);
      && o.count == |data| && o.cursor == cursor + |data| && Open(o.store, h, o.cursor, B)
      && o.store.map_[h] == st.map_[h] && o.store.blocks[h] == Stamped(st.blocks[h], now, true)
      && Contents(o.store, c, B) == Patch(Contents(st, c, B), cursor - B, data, B)
  {
    var st1, r := WriteLoopRuns(st, h, cursor, data, now, B);
    FrameHead(st1, r, h);
  }

  /** Any write leaves every other file's slots and bytes, and every other block, alone. */
  lemma WriteIsolates(st: Store, h: nat, cursor: nat, data: seq<byte>, now: Clock, o: Outcome, d: Fcode, B: nat)
    requires Valid(st, B) && LiveHead(st.map_, h) && B >= META_SIZE && Ticks(now)
    requires d != NO_FILE && d != st.map_[h].code && o == WriteFile(st, h, cursor, data, now, B)
    ensures Valid(o.store, B) && Confined(st, o.store, h)
    ensures forall x: nat :: Find(o.store.map_, d, x) == Find(st.map_, d, x)
    ensures Contents(o.store, d, B) == Contents(st, d, B)
  {
    WriteConfined(st, h, cursor, data, now, o, B);
    ConfinedOthers(st, o.store, h, d, B);
  }

  /** A write to a writable file reports every byte as written, but lays them over the stream exactly
      when it starts no later than the block after the file and enough free slots lie at or above the
      hint. */
  lemma WriteReports(st: Store, h: nat, cursor: nat, data: seq<byte>, now: Clock, o: Outcome, B: nat)
    requires Open(st, h, cursor, B) && Ticks(now) && data != [] && cursor + |data| < TWO_64
    requires !Flag(st.map_[h].attrs, READ_ONLY) && o == WriteFile(st, h, cursor, data, now, B)
    ensures o.count == |data| && o.cursor == cursor + |data| && Valid(o.store, B)
    ensures var c := st.map_[h].code;
      Contents(o.store, c, B) == Patch(Contents(st, c, B), cursor - B, data, B) <==>
      (cursor / B <= Tails(st.map_, c) + 1
       && Missing(Tails(st.map_, c), LastBlock(cursor, |data|, B)) <= FreeCount(st.map_, st.hint))
  {
    var st1, r := StampHead(st, h, now, true, B), o.store;
    StampKeeps(st, h, now, true, st.map_[h].code, B);
    WriteSome(st, h, cursor, data, now, o, B);
    WriteExactly(st1, r, h, cursor, data, B);
  }

  lemma WriteSome(st: Store, h: nat, cursor: nat, data: seq<byte>, now: Clock, o: Outcome, B: nat)
    requires Open(st, h, cursor, B) && Ticks(now) && data != [] && cursor + |data| < TWO_64
    requires !Flag(st.map_[h].attrs, READ_ONLY) && o == WriteFile(st, h, cursor, data, now, B)
    ensures o.count == |data| && o.cursor == cursor + |data|
    ensures o.store == WriteLoop(StampHead(st, h, now, true, B), h, cursor, data, B)
  {
    NoWrap(cursor + |data|);
  }

  /** A write of nothing does nothing; a write to a read-only file stamps its head block all the same. */
  lemma WriteRefused(st: Store, h: nat, cursor: nat, data: seq<byte>, now: Clock, o: Outcome, B: nat)
    requires Valid(st, B) && LiveHead(st.map_, h) && B >= META_SIZE && Ticks(now)
    requires data == [] || Flag(st.map_[h].attrs, READ_ONLY)
    requires o == WriteFile(st, h, cursor, data, now, B)
    ensures o.count == 0 && o.cursor == cursor && o.store.map_ == st.map_ && o.store.hint == st.hint
    ensures |o.store.blocks| == |st.blocks|
    ensures o.store.blocks[h] == if data == [] then st.blocks[h] else Stamped(st.blocks[h], now, true)
    ensures forall k :: 0 <= k < |st.blocks| && k != h ==> o.store.blocks[k] == st.blocks[k]
  {
  }

  /** After the write the head block differs from before in its time fields only. */
  ghost predicate OnlyStamped(st: Store, h: nat, cursor: nat, data: seq<byte>, now: Clock, B: nat)
  {
    && Shaped(st, B) && h < |st.map_| && B >= META_SIZE && Ticks(now)
    && var o := WriteFile(st, h, cursor, data, now, B);
    && h < |o.store.blocks| && o.store.blocks[h] == Stamped(st.blocks[h], now, true)
  }

  /** Writes of n bytes leave the metadata block alone, its time fields aside, exactly when they touch no
      block whose number is a multiple of 2^32. */
  lemma MetadataKeptExactly(st: Store, h: nat, cursor: nat, n: nat, now: Clock, B: nat)
    requires Open(st, h, cursor, B) && Ticks(now) && n > 0 && cursor + n < TWO_64
    requires !Flag(st.map_[h].attrs, READ_ONLY)
    ensures (forall data: seq<byte> :: |data| == n ==> OnlyStamped(st, h, cursor, data, now, B))
            <==> (forall x: nat :: cursor / B <= x <= LastBlock(cursor, n, B) ==> !Aliased(x))
  {
    var st1 := StampHead(st, h, now, true, B);
    StampKeeps(st, h, now, true, st.map_[h].code, B);
    forall data: seq<byte> | |data| == n
      ensures OnlyStamped(st, h, cursor, data, now, B)
              <==> WriteLoop(st1, h, cursor, data, B).blocks[h] == st1.blocks[h]
    {
      WriteSome(st, h, cursor, data, now, WriteFile(st, h, cursor, data, now, B), B);
    }
    HeadKeptExactly(st1, h, cursor, n, B);
  }

  lemma SizeIs(st: Store, h: nat, B: nat)
    requires Valid(st, B) && LiveHead(st.map_, h)
    ensures SizeOf(st, h, B) == |Contents(st, st.map_[h].code, B)|
  {
    FlatLength(FileBlocks(st, st.map_[h].code, B), B);
    SpanIs(Tails(st.map_, st.map_[h].code), B);
  }

  /** The size after a write: the old one, or the end of the write rounded up to a block. */
  lemma WriteSize(st: Store, h: nat, cursor: nat, data: seq<byte>, now: Clock, B: nat)
    requires Accepted(st, h, cursor, data, B) && Ticks(now)
    ensures SizeOf(WriteFile(st, h, cursor, data, now, B).store, h, B)
            == Max(SizeOf(st, h, B), RoundUp(cursor - B + |data|, B))
  {
    WriteOverwrites(st, h, cursor, data, now, B);
    SizeIs(st, h, B);
    SizeIs(WriteFile(st, h, cursor, data, now, B).store, h, B);
  }

  /** The wrapping test of _fread, unwrapped. */
  lemma ReadTest(cursor: nat, n: nat, B: nat)
    requires B <= cursor && cursor + n < TWO_64
    ensures ((cursor + TWO_64 - B) % TWO_64 + n) % TWO_64 == cursor - B + n
    ensures (cursor + n) % TWO_64 == cursor + n
  {
    assert cursor + TWO_64 - B == TWO_64 + (cursor - B);
  }

  lemma ReadFileSome(st: Store, h: nat, cursor: nat, n: nat, now: Clock, v: seq<byte>, B: nat)
    requires Shaped(st, B) && h < |st.map_| && Ticks(now) && META_SIZE <= B <= cursor && cursor + n < TWO_64
    requires cursor - B + n <= SizeOf(st, h, B)
    requires ReadsAs(StampHead(st, h, now, false, B), h, cursor, n, B, v) && |v| == n
    ensures ReadFile(st, h, cursor, n, now, B) == Outcome(StampHead(st, h, now, false, B), cursor + n, n, v)
  {
    ReadTest(cursor, n, B);
  }

  /** A read within 64 bits succeeds in full exactly when it ends within the file, and else does nothing. */
  lemma ReadExactly(st: Store, h: nat, cursor: nat, n: nat, now: Clock, B: nat)
    requires Open(st, h, cursor, B) && Ticks(now) && n > 0 && cursor + n < TWO_64
    ensures var c, s, o := st.map_[h].code, cursor - B, ReadFile(st, h, cursor, n, now, B);
      if s + n <= SizeOf(st, h, B) then
        && s + n <= |Contents(st, c, B)|
        && o == Outcome(StampHead(st, h, now, false, B), cursor + n, n, Contents(st, c, B)[s..s + n])
      else
        o == Outcome(st, cursor, 0, [])
  {
    hide Inv, ReadLoop, Flat, StampHead, Tails;
    var c, s, st1 := st.map_[h].code, cursor - B, StampHead(st, h, now, false, B);
    ReadTest(cursor, n, B);
    if s + n <= SizeOf(st, h, B) {
      SizeIs(st, h, B);
      StampKeeps(st, h, now, false, c, B);
      var o := Contents(st, c, B);
      LoopReads(st1, h, c, cursor, n, s, s + n, o, B);
      ReadFileSome(st, h, cursor, n, now, o[s..s + n], B);
    }
  }

  /** The wrapping test of _fread for a cursor in front of the data. */
  lemma MetadataTest(cursor: nat, n: nat, B: nat, size: nat)
    requires cursor < B < TWO_64 && n > 0 && cursor + n < TWO_64 && size + B <= TWO_64
    ensures ((cursor + TWO_64 - B) % TWO_64 + n) % TWO_64 > size <==> !(B <= cursor + n <= B + size)
    ensures (cursor + n) % TWO_64 == cursor + n
  {
    NoWrap(cursor + TWO_64 - B);
    var e := cursor + TWO_64 - B + n;
    if cursor + n < B {
      NoWrap(e);
    } else {
      DivIs(e, TWO_64, 1, cursor + n - B);
    }
  }

  /** With the cursor in the metadata block, where a write past 2^64 leaves it, a read is refused if it ends
      there too; otherwise it succeeds within the file and returns metadata in front of the data. */
  lemma ReadFromMetadata(st: Store, h: nat, cursor: nat, n: nat, now: Clock, o: Outcome, B: nat)
    requires Valid(st, B) && LiveHead(st.map_, h) && Ticks(now) && META_SIZE <= B < TWO_64
    requires cursor < B && n > 0 && cursor + n < TWO_64 && SizeOf(st, h, B) + B <= TWO_64
    requires o == ReadFile(st, h, cursor, n, now, B)
    ensures var all, size := Stamped(st.blocks[h], now, false) + Contents(st, st.map_[h].code, B), SizeOf(st, h, B);
      if B <= cursor + n <= B + size then
        cursor + n <= |all| && o.data == all[cursor..cursor + n] && o.count == n && o.cursor == cursor + n
      else o == Outcome(st, cursor, 0, [])
  {
    hide Inv, ReadLoop, Flat, Stamped, Contents, Span;
    var c, st1 := st.map_[h].code, StampHead(st, h, now, false, B);
    MetadataTest(cursor, n, B, SizeOf(st, h, B));
    SizeIs(st, h, B);
    if B <= cursor + n <= B + SizeOf(st, h, B) {
      StampKeeps(st, h, now, false, c, B);
      var all := st1.blocks[h] + Contents(st, c, B);
      InBlocks(st, h, B);
      LoopReadsAny(st1, h, cursor, n, all, B);
      assert Stretch(all, cursor, n) == all[cursor..cursor + n];
    }
  }

  lemma InBlocks(st: Store, h: nat, B: nat)
    requires Valid(st, B) && LiveHead(st.map_, h)
    ensures SizeOf(st, h, B) + B <= Span(TWO_32, B)
  {
    var t := Tails(st.map_, st.map_[h].code);
    TailsBelow(st.map_, h);
    SpanIs(TWO_32, B);
    MulMono(t + 1, TWO_32, B);
    assert (t + 1) * B == t * B + B;
  }

  lemma PatchSlice(old_: seq<byte>, s: nat, d: seq<byte>, B: nat)
    requires B > 0 && d != []
    ensures s + |d| <= |Patch(old_, s, d, B)| && Patch(old_, s, d, B)[s..s + |d|] == d
  {
    RoundUpMono(s + |d|, s + |d|, B);
  }

  /** Seek, write, seek, read: what was written is what is read. */
  lemma WriteThenRead(st: Store, h: nat, s: nat, data: seq<byte>, t0: Clock, t1: Clock, B: nat)
    requires Ticks(t0) && Ticks(t1) && B < TWO_64 && Accepted(st, h, Seek(s, B), data, B)
    ensures var o := WriteFile(st, h, Seek(s, B), data, t0, B);
      var r := ReadFile(o.store, h, Seek(s, B), |data|, t1, B);
      o.count == |data| && r.count == |data| && r.data == data
  {
    hide Inv, WriteLoop, ReadLoop, Patch, Flat, WriteFile, ReadFile, RoomFor;
    var p := Seek(s, B);
    var o := WriteFile(st, h, p, data, t0, B);
    WriteOverwrites(st, h, p, data, t0, B);
    var c, s := st.map_[h].code, p - B;
    var v := Contents(o.store, c, B);
    PatchSlice(Contents(st, c, B), s, data, B);
    ReadIsOk(o.store, h, c, p, s, |data|, t1, ReadFile(o.store, h, p, |data|, t1, B), v, B);
  }

  /** A write and then a read: the head block shows the read's clock as the last access, the write's as the last
      change, and for the rest what it showed before. */
  lemma StampHistory(st: Store, h: nat, cursor: nat, data: seq<byte>, t0: Clock, o: Outcome,
                     at: nat, n: nat, t1: Clock, r: Outcome, B: nat)
    requires Accepted(st, h, cursor, data, B) && Ticks(t0) && o == WriteFile(st, h, cursor, data, t0, B)
    requires Ticks(t1) && B <= at && n > 0 && at + n < TWO_64
    requires Shaped(o.store, B) && h < |o.store.map_| ==>
      at - B + n <= SizeOf(o.store, h, B) && r == ReadFile(o.store, h, at, n, t1, B)
    ensures h < |r.store.blocks| && |r.store.blocks[h]| == B == |st.blocks[h]|
    ensures var b := r.store.blocks[h];
      && b[40..48] == t1.time && b[48..56] == t0.time && b[56..64] == t1.date && b[64..72] == t0.date
      && b[..40] == st.blocks[h][..40] && b[72..512] == st.blocks[h][72..512]
  {
    hide WriteFile, ReadFile, Inv, Flat, Patch, Stamped, RoomFor;
    WriteOverwrites(st, h, cursor, data, t0, B);
    ReadExactly(o.store, h, at, n, t1, B);
    StampTwice(st.blocks[h], t0, t1, Stamped(Stamped(st.blocks[h], t0, true), t1, false));
  }

  lemma StampTwice(a: seq<byte>, t0: Clock, t1: Clock, b: seq<byte>)
    requires |a| >= META_SIZE && Ticks(t0) && Ticks(t1) && b == Stamped(Stamped(a, t0, true), t1, false)
    ensures |b| == |a|
    ensures b[40..48] == t1.time && b[48..56] == t0.time && b[56..64] == t1.date && b[64..72] == t0.date
    ensures b[..40] == a[..40] && b[72..512] == a[72..512]
  {
    hide Stamped;
    forall i | 0 <= i < 512
      ensures b[i] == if 40 <= i < 48 then t1.time[i - 40] else if 48 <= i < 56 then t0.time[i - 48]
                      else if 56 <= i < 64 then t1.date[i - 56] else if 64 <= i < 72 then t0.date[i - 64] else a[i]
    {
      StampFields(a, t0, true, i);
      StampFields(Stamped(a, t0, true), t1, false, i);
    }
  }

  /** o is the outcome of a read of n bytes at s from a file with the bytes v. */
  ghost predicate ReadOk(h: nat, c: Fcode, cursor: nat, s: nat, n: nat, o: Outcome, v: seq<byte>, B: nat)
  {
    && s + n <= |v| && o.data == v[s..s + n] && o.cursor == cursor + n && o.count == n
    && Open(o.store, h, o.cursor, B) && o.store.map_[h].code == c && Contents(o.store, c, B) == v
  }

  lemma ReadIsOk(st: Store, h: nat, c: Fcode, cursor: nat, s: nat, n: nat, now: Clock, o: Outcome, v: seq<byte>, B: nat)
    requires Open(st, h, cursor, B) && Ticks(now) && n > 0 && cursor + n < TWO_64
    requires c == st.map_[h].code && s == cursor - B && v == Contents(st, c, B) && s + n <= |v|
    requires o == ReadFile(st, h, cursor, n, now, B)
    ensures ReadOk(h, c, cursor, s, n, o, v, B)
  {
    SizeIs(st, h, B);
    ReadExactly(st, h, cursor, n, now, B);
    StampKeeps(st, h, now, false, c, B);
  }

  lemma SliceSplit(o: seq<byte>, s: nat, s': nat, a: nat, b: nat, n: nat, x: seq<byte>, y: seq<byte>, z: seq<byte>)
    requires n == a + b && s' == s + a && s + n <= |o|
    requires x == o[s..s + a] && y == o[s'..s' + b] && z == o[s..s + n]
    ensures x + y == z
  {
  }

  /** The two reads r0 and r1 amount to r. */
  predicate Together(r0: Outcome, r1: Outcome, r: Outcome)
  {
    r0.data + r1.data == r.data && r1.cursor == r.cursor && r0.count + r1.count == r.count
  }

  lemma ReadSplitWithin(st: Store, h: nat, cursor: nat, a: nat, b: nat, n: nat, t0: Clock, t1: Clock, t2: Clock,
                        r0: Outcome, r1: Outcome, r: Outcome, B: nat)
    requires Open(st, h, cursor, B) && Ticks(t0) && Ticks(t1) && Ticks(t2)
    requires a > 0 && b > 0 && n == a + b && cursor + n < TWO_64 && cursor - B + n <= SizeOf(st, h, B)
    requires r0 == ReadFile(st, h, cursor, a, t0, B)
    requires Shaped(r0.store, B) && h < |r0.store.map_| ==> r1 == ReadFile(r0.store, h, r0.cursor, b, t1, B)
    requires r == ReadFile(st, h, cursor, n, t2, B)
    ensures Together(r0, r1, r) && r.count == n
  {
    var c, s := st.map_[h].code, cursor - B;
    var v, s' := Contents(st, c, B), s + a;
    SizeIs(st, h, B);
    ReadIsOk(st, h, c, cursor, s, a, t0, r0, v, B);
    ReadIsOk(st, h, c, cursor, s, n, t2, r, v, B);
    ReadIsOk(r0.store, h, c, r0.cursor, s', b, t1, r1, v, B);
    OkTogether(h, c, cursor, r0.cursor, s, s', a, b, n, r0, r1, r, v, B);
  }

  lemma OkTogether(h: nat, c: Fcode, cursor: nat, cursor': nat, s: nat, s': nat, a: nat, b: nat, n: nat,
                   r0: Outcome, r1: Outcome, r: Outcome, v: seq<byte>, B: nat)
    requires ReadOk(h, c, cursor, s, a, r0, v, B) && ReadOk(h, c, cursor', s', b, r1, v, B)
    requires ReadOk(h, c, cursor, s, n, r, v, B) && cursor' == r0.cursor && s' == s + a && n == a + b
    ensures Together(r0, r1, r) && r.count == n
  {
    SliceSplit(v, s, s', a, b, n, r0.data, r1.data, r.data);
  }

  /** Two reads in a row amount to one longer read exactly when they end within the file together, or
      each of them alone passes its end. */
  lemma ReadSplit(st: Store, h: nat, cursor: nat, a: nat, b: nat, t0: Clock, t1: Clock, t2: Clock,
                  r0: Outcome, r1: Outcome, r: Outcome, B: nat)
    requires Open(st, h, cursor, B) && Ticks(t0) && Ticks(t1) && Ticks(t2)
    requires a > 0 && b > 0 && cursor + a + b < TWO_64
    requires r0 == ReadFile(st, h, cursor, a, t0, B)
    requires Shaped(r0.store, B) && h < |r0.store.map_| ==> r1 == ReadFile(r0.store, h, r0.cursor, b, t1, B)
    requires r == ReadFile(st, h, cursor, a + b, t2, B)
    ensures var s, size := cursor - B, SizeOf(st, h, B);
      Together(r0, r1, r) <==> s + a + b <= size || (s + a > size && s + b > size)
  {
    hide Inv, ReadFile, ReadLoop, StampHead, SizeOf, FileBlocks, Flat;
    var s, size := cursor - B, SizeOf(st, h, B);
    if s + a + b <= size {
      ReadSplitWithin(st, h, cursor, a, b, a + b, t0, t1, t2, r0, r1, r, B);
    } else {
      ReadExactly(st, h, cursor, a + b, t2, B);
      ReadExactly(st, h, cursor, a, t0, B);
      if s + a > size {
        ReadExactly(st, h, cursor, b, t1, B);
      }
    }
  }
}
