/** The handle operations of frat.c: seek, write, read, size. */
module Files {
  import opened Arith
  import opened ClusterMap
  import opened FileStore
  import opened Write
  import opened Limits

  // ---------------------------------------------------------------- cursor

  /** _fseek */
  function Seek(p: nat, B: nat): nat
    requires B < TWO_64
  {
    if p > TWO_64 - 1 - B then TWO_64 - 1 else B + p
  }

  /** _fseeko, in the unsigned arithmetic of the source. */
  function SeekBy(cursor: nat, delta: int, B: nat): int
    requires cursor < TWO_64 && -0x8000_0000_0000_0000 <= delta < 0x8000_0000_0000_0000
  {
    if delta < 0 then
      var distance := -(delta + 1) + 1;
      if cursor <= B || distance >= cursor - B then B else cursor - distance
    else if delta > TWO_64 - 1 - cursor then TWO_64 - 1
    else cursor + delta
  }

  /** A relative seek is the exact sum, clamped to the file's first byte and the largest position. */
  lemma SeekByClamps(cursor: nat, delta: int, B: nat)
    requires B <= cursor < TWO_64 && -0x8000_0000_0000_0000 <= delta < 0x8000_0000_0000_0000
    ensures SeekBy(cursor, delta, B) == Max(B, Min(cursor + delta, TWO_64 - 1))
  {
  }

  /** From any cursor, one in the metadata block included: backwards no further than the first data byte,
      forwards no further than the largest position. */
  lemma SeekByAnywhere(cursor: nat, delta: int, B: nat)
    requires cursor < TWO_64 && -0x8000_0000_0000_0000 <= delta < 0x8000_0000_0000_0000
    ensures SeekBy(cursor, delta, B) == if delta < 0 then Max(B, cursor + delta) else Min(cursor + delta, TWO_64 - 1)
  {
  }

  // ---------------------------------------------------------------- time stamps

  /** The eight time bytes and eight date bytes of the clock. */
  datatype Clock = Clock(time: seq<byte>, date: seq<byte>)

  ghost predicate Ticks(now: Clock) { |now.time| == 8 == |now.date| }

  const META_SIZE: nat := 512

  /** __fupdatetstamp on a head block: access fields at 40 and 56, write fields at 48 and 64;
      what lies beyond the 512 bytes of metadata is zeroed. */
  function Stamped(b: seq<byte>, now: Clock, wt: bool): (r: seq<byte>)
    requires |b| >= META_SIZE && Ticks(now)
    ensures |r| == |b|
  {
    b[..40] + now.time + (if wt then now.time else b[48..56])
    + now.date + (if wt then now.date else b[64..72]) + b[72..META_SIZE] + Zeros(|b| - META_SIZE)
  }

  /** The stamped record byte by byte: both access fields are set, the write fields only by a write. */
  lemma StampFields(b: seq<byte>, now: Clock, wt: bool, i: nat)
    requires |b| >= META_SIZE && Ticks(now) && i < |b|
    ensures Stamped(b, now, wt)[i]
            == if 40 <= i < 48 then now.time[i - 40]
               else if 48 <= i < 56 && wt then now.time[i - 48]
               else if 56 <= i < 64 then now.date[i - 56]
               else if 64 <= i < 72 && wt then now.date[i - 64]
               else if i < 512 then b[i] else 0
  {
  }

  function StampHead(st: Store, h: nat, now: Clock, wt: bool, B: nat): (r: Store)
    requires Shaped(st, B) && h < |st.map_| && B >= META_SIZE && Ticks(now)
    ensures Shaped(r, B) && r.map_ == st.map_ && r.hint == st.hint
  {
    st.(blocks := st.blocks[h := Stamped(st.blocks[h], now, wt)])
  }

  /** A stamp changes no byte of any file. */
  lemma StampKeeps(st: Store, h: nat, now: Clock, wt: bool, d: Fcode, B: nat)
    requires Valid(st, B) && LiveHead(st.map_, h) && B >= META_SIZE && Ticks(now) && d != NO_FILE
    ensures Valid(StampHead(st, h, now, wt, B), B)
    ensures Contents(StampHead(st, h, now, wt, B), d, B) == Contents(st, d, B)
  {
    assert FileBlocks(StampHead(st, h, now, wt, B), d, B) == FileBlocks(st, d, B);
  }

  // ---------------------------------------------------------------- write, read

  datatype Outcome = Outcome(store: Store, cursor: nat, count: nat, data: seq<byte>)

  /** _fwrite of the bytes data. */
  function WriteFile(st: Store, h: nat, cursor: nat, data: seq<byte>, now: Clock, B: nat): Outcome
    requires Shaped(st, B) && h < |st.map_| && B >= META_SIZE && Ticks(now)
  {
    if data == [] then Outcome(st, cursor, 0, [])
    else
      var st1 := StampHead(st, h, now, true, B);
      if Flag(st.map_[h].attrs, READ_ONLY) then Outcome(st1, cursor, 0, [])
      else Outcome(WriteLoop(st1, h, cursor, data, B), (cursor + |data|) % TWO_64, |data|, [])
  }

  /** __fsize of a live file. */
  function SizeOf(st: Store, h: nat, B: nat): nat
    requires h < |st.map_|
  {
    Tails(st.map_, st.map_[h].code) * B
  }

  /** _fread of n bytes; the test against the size is in wrapping 64-bit arithmetic. */
  function ReadFile(st: Store, h: nat, cursor: nat, n: nat, now: Clock, B: nat): Outcome
    requires Shaped(st, B) && h < |st.map_| && B >= META_SIZE && Ticks(now)
  {
    if ((cursor + TWO_64 - B) % TWO_64 + n) % TWO_64 > SizeOf(st, h, B) then Outcome(st, cursor, 0, [])
    else
      var st1 := StampHead(st, h, now, false, B);
      var out := ReadLoop(st1, h, cursor, n, B);
      Outcome(st1, (cursor + |out|) % TWO_64, |out|, out)
  }

  lemma StampConfined(st: Store, h: nat, now: Clock, wt: bool, B: nat)
    requires Valid(st, B) && LiveHead(st.map_, h) && B >= META_SIZE && Ticks(now)
    ensures Valid(StampHead(st, h, now, wt, B), B) && Confined(st, StampHead(st, h, now, wt, B), h)
  {
  }

  /** Whatever its position and its length, and whether or not it finds slots, a write keeps the map
      sound and stays within its own file and free slots. */
  lemma WriteConfined(st: Store, h: nat, cursor: nat, data: seq<byte>, now: Clock, o: Outcome, B: nat)
    requires Valid(st, B) && LiveHead(st.map_, h) && B >= META_SIZE && Ticks(now)
    requires o == WriteFile(st, h, cursor, data, now, B)
    ensures Valid(o.store, B) && Confined(st, o.store, h)
  {
    var st1 := StampHead(st, h, now, true, B);
    StampConfined(st, h, now, true, B);
    if data != [] && !Flag(st.map_[h].attrs, READ_ONLY) {
      assert LoopEnds(st1, h, cursor, data, B, o.store);
      LoopSound(st1, o.store, h, cursor, data, B);
      ConfinedTrans(st, st1, o.store, h);
    }
  }

  // ---------------------------------------------------------------- reading

  /** A stretch inside block j is that stretch of the stream. */
  lemma FlatSlice(bs: seq<seq<byte>>, j: nat, off: nat, n: nat, s: nat, B: nat)
    requires Blocky(bs, B) && j < |bs| && off + n <= B && s == Span(j, B) + off
    ensures s + n <= |Flat(bs)| && Flat(bs)[s..s + n] == bs[j][off..off + n]
  {
    FlatAround(bs, j, B);
    SliceOfMiddle(Flat(bs[..j]), bs[j], Flat(bs[j + 1..]), off, n, s);
  }

  lemma SliceOfMiddle(p: seq<byte>, m: seq<byte>, q: seq<byte>, off: nat, n: nat, s: nat)
    requires off + n <= |m| && s == |p| + off
    ensures s + n <= |p + m + q| && (p + m + q)[s..s + n] == m[off..off + n]
  {
    var all := p + m + q;
    var l, r := all[s..s + n], m[off..off + n];
    forall i | 0 <= i < |l|
      ensures l[i] == r[i]
    {
      assert all[s + i] == m[off + i];
    }
  }

  /** Block x >= 1 of a live file, as the read loop loads it. */
  lemma LoadIs(st: Store, h: nat, c: Fcode, x: nat, B: nat)
    requires Valid(st, B) && LiveHead(st.map_, h) && c == st.map_[h].code
    requires 1 <= x <= Tails(st.map_, c)
    ensures Load(st, h, x, B) == Some(FileBlocks(st, c, B)[x - 1])
  {
    hide Unique, Flagged, Sized, Tails;
    TailsBound(st.map_, c);
    assert Find(st.map_, c, x) < |st.map_|;
  }

  /** What a lookup of any block number finds: numbers count modulo 2^32, the head is block 0, and there is
      nothing past the last data block. */
  lemma LoadExactly(st: Store, h: nat, ix: nat, x: nat, B: nat)
    requires Valid(st, B) && LiveHead(st.map_, h) && x == ix % TWO_32
    ensures var c := st.map_[h].code;
      Load(st, h, ix, B) == if x == 0 then Some(st.blocks[h])
                            else if x <= Tails(st.map_, c) then Some(FileBlocks(st, c, B)[x - 1]) else None
  {
    hide Flagged, Sized, Tails;
    var c := st.map_[h].code;
    FindUnique(st.map_, c, 0, h);
    assert x >= 1 ==> (Find(st.map_, c, x) < |st.map_| <==> x <= Tails(st.map_, c));
  }

  /** Reading n bytes at pos yields v. */
  ghost predicate ReadsAs(st: Store, h: nat, pos: nat, n: nat, B: nat, v: seq<byte>)
  {
    Shaped(st, B) && h < |st.map_| && ReadLoop(st, h, pos, n, B) == v
  }

  lemma ReadUnroll(st: Store, h: nat, pos: nat, n: nat, blk: seq<byte>, len: nat, v: seq<byte>, w: seq<byte>, B: nat)
    requires Shaped(st, B) && h < |st.map_| && n > 0 && pos + n < TWO_64
    requires Load(st, h, pos / B, B) == Some(blk) && len == Chunk(pos, n, B) && v == blk[pos % B..pos % B + len]
    requires ReadsAs(st, h, pos + len, n - len, B, w)
    ensures ReadsAs(st, h, pos, n, B, v + w)
  {
    NoWrap(pos + len);
  }

  lemma ReadTurn(st: Store, h: nat, c: Fcode, pos: nat, n: nat, len: nat, v: seq<byte>, w: seq<byte>, B: nat)
    requires Valid(st, B) && LiveHead(st.map_, h) && c == st.map_[h].code
    requires n > 0 && B <= pos && pos - B < |Contents(st, c, B)| && pos + n < TWO_64 && len == Chunk(pos, n, B)
    requires ReadsAs(st, h, pos + len, n - len, B, w)
    requires pos - B + len <= |Contents(st, c, B)| ==> v == Contents(st, c, B)[pos - B..pos - B + len]
    ensures pos - B + len <= |Contents(st, c, B)| && ReadsAs(st, h, pos, n, B, v + w)
  {
    hide Inv, ReadLoop, Flat, FileBlocks, Tails, Load, ReadsAs;
    var x, bs := pos / B, FileBlocks(st, c, B);
    BlockInFile(st, c, pos, B);
    ChunkAt(pos, B);
    LoadIs(st, h, c, x, B);
    FlatSlice(bs, x - 1, pos % B, len, pos - B, B);
    ReadUnroll(st, h, pos, n, bs[x - 1], len, v, w, B);
  }

  lemma ReadsNothing(st: Store, h: nat, pos: nat, B: nat, v: seq<byte>)
    requires Shaped(st, B) && h < |st.map_| && v == []
    ensures ReadsAs(st, h, pos, 0, B, v)
  {
  }

  lemma {:induction false} LoopReads(st: Store, h: nat, c: Fcode, pos: nat, n: nat, s: nat, e: nat,
                                     o: seq<byte>, B: nat)
    requires Valid(st, B) && LiveHead(st.map_, h) && c == st.map_[h].code && o == Contents(st, c, B)
    requires B <= pos && s == pos - B && e == s + n && e <= |o| && pos + n < TWO_64
    ensures ReadsAs(st, h, pos, n, B, o[s..e])
    decreases n
  {
    hide Inv, ReadLoop, Flat, FileBlocks, ReadsAs;
    if n == 0 {
      ReadsNothing(st, h, pos, B, o[s..e]);
    } else {
      var len := Chunk(pos, n, B);
      var s' := s + len;
      var v, w := o[s..s'], o[s'..e];
      assert v + w == o[s..e];
      LoopReads(st, h, c, pos + len, n - len, s', e, o, B);
      ReadTurn(st, h, c, pos, n, len, v, w, B);
    }
  }

  lemma BlockInFile(st: Store, c: Fcode, pos: nat, B: nat)
    requires Valid(st, B) && c != NO_FILE && B <= pos && pos - B < |Contents(st, c, B)|
    ensures 1 <= pos / B <= Tails(st.map_, c)
  {
    hide Inv, Flat, Tails;
    var t := Tails(st.map_, c);
    FlatLength(FileBlocks(st, c, B), B);
    SpanIs(t, B);
    assert (t + 1) * B == t * B + B;
    DivLess(pos, B, 1);
    DivLess(pos, B, t + 1);
  }

  // ---------------------------------------------------------------- reading anywhere

  /** The head block and the data blocks of the file at h, in order. */
  ghost function AllBlocks(st: Store, h: nat, B: nat): (bs: seq<seq<byte>>)
    requires Valid(st, B) && LiveHead(st.map_, h)
    ensures |bs| == 1 + Tails(st.map_, st.map_[h].code) && Blocky(bs, B)
  {
    [st.blocks[h]] + FileBlocks(st, st.map_[h].code, B)
  }

  lemma AllBytes(st: Store, h: nat, B: nat)
    requires Valid(st, B) && LiveHead(st.map_, h)
    ensures Flat(AllBlocks(st, h, B)) == st.blocks[h] + Contents(st, st.map_[h].code, B)
    ensures |Flat(AllBlocks(st, h, B))| == Span(|AllBlocks(st, h, B)|, B)
  {
    var b, bs := st.blocks[h], FileBlocks(st, st.map_[h].code, B);
    FlatConcat([b], bs);
    assert Flat([b]) == b by {
      assert Flat([b][..0]) == [];
    }
    FlatLength(AllBlocks(st, h, B), B);
  }

  lemma LoadAny(st: Store, h: nat, x: nat, B: nat)
    requires Valid(st, B) && LiveHead(st.map_, h) && x < TWO_32
    ensures var bs := AllBlocks(st, h, B); Load(st, h, x, B) == if x < |bs| then Some(bs[x]) else None
  {
    hide Inv, Tails, Load;
    LoadExactly(st, h, x, x, B);
  }

  lemma BlockBelow(pos: nat, t: nat, B: nat)
    requires B > 0
    ensures pos < Span(t, B) <==> pos / B < t
    ensures pos == Span(pos / B, B) + pos % B
  {
    DivMod(pos, B);
    SpanIs(t, B);
    SpanIs(pos / B, B);
    DivLess(pos, B, t);
  }

  lemma ReadStops(st: Store, h: nat, pos: nat, n: nat, B: nat)
    requires Shaped(st, B) && h < |st.map_| && (n == 0 || Load(st, h, pos / B, B).None?)
    ensures ReadsAs(st, h, pos, n, B, [])
  {
  }

  /** The stretch of n bytes at pos, as far as there are any. */
  function Stretch(all: seq<byte>, pos: nat, n: nat): seq<byte>
  {
    if pos >= |all| then [] else all[pos..Min(pos + n, |all|)]
  }

  lemma StretchSplit(all: seq<byte>, pos: nat, n: nat, len: nat, v: seq<byte>)
    requires len <= n && pos + len <= |all| && v == all[pos..pos + len]
    ensures v + Stretch(all, pos + len, n - len) == Stretch(all, pos, n)
  {
  }

  /** The read loop within those bytes, by one turn. */
  lemma AnyTurn(st: Store, h: nat, pos: nat, n: nat, len: nat, all: seq<byte>, w: seq<byte>, B: nat)
    requires Valid(st, B) && LiveHead(st.map_, h) && n > 0 && pos + n < TWO_64 && pos < Span(TWO_32, B)
    requires all == st.blocks[h] + Contents(st, st.map_[h].code, B) && pos < |all| && len == Chunk(pos, n, B)
    requires ReadsAs(st, h, pos + len, n - len, B, w)
    ensures pos + len <= |all| && ReadsAs(st, h, pos, n, B, all[pos..pos + len] + w)
  {
    hide Inv, ReadLoop, Flat, AllBlocks, Load, ReadsAs, Contents, Span;
    var x, bs := pos / B, AllBlocks(st, h, B);
    AllBytes(st, h, B);
    BlockBelow(pos, |bs|, B);
    BlockBelow(pos, TWO_32, B);
    LoadAny(st, h, x, B);
    FlatSlice(bs, x, pos % B, len, pos, B);
    ReadUnroll(st, h, pos, n, bs[x], len, all[pos..pos + len], w, B);
  }

  lemma AnyEnd(st: Store, h: nat, pos: nat, n: nat, all: seq<byte>, B: nat)
    requires Valid(st, B) && LiveHead(st.map_, h)
    requires all == st.blocks[h] + Contents(st, st.map_[h].code, B)
    requires n == 0 || (|all| <= pos < Span(TWO_32, B))
    ensures ReadsAs(st, h, pos, n, B, Stretch(all, pos, n))
  {
    hide Inv, ReadLoop, Flat, AllBlocks, Load, ReadsAs, Contents, Span;
    EmptyStretch(all, pos, n);
    if n > 0 {
      AllBytes(st, h, B);
      BlockBelow(pos, |AllBlocks(st, h, B)|, B);
      BlockBelow(pos, TWO_32, B);
      LoadAny(st, h, pos / B, B);
    }
    ReadStops(st, h, pos, n, B);
  }

  /** The read loop from any position, the metadata block included, and past the end of the file: it returns
      the bytes of head block and data blocks in order, as far as there are any. */
  lemma {:induction false} LoopReadsAny(st: Store, h: nat, pos: nat, n: nat, all: seq<byte>, B: nat)
    requires Valid(st, B) && LiveHead(st.map_, h) && pos + n < TWO_64 && pos + n <= Span(TWO_32, B)
    requires all == st.blocks[h] + Contents(st, st.map_[h].code, B)
    ensures ReadsAs(st, h, pos, n, B, Stretch(all, pos, n))
    decreases n
  {
    hide Inv, ReadLoop, Flat, ReadsAs, Stretch, Contents, Span;
    if n == 0 || pos >= |all| {
      AnyEnd(st, h, pos, n, all, B);
    } else {
      var len := Chunk(pos, n, B);
      LoopReadsAny(st, h, pos + len, n - len, all, B);
      AnyTurn(st, h, pos, n, len, all, Stretch(all, pos + len, n - len), B);
      StretchSplit(all, pos, n, len, all[pos..pos + len]);
    }
  }

  lemma EmptyStretch(all: seq<byte>, pos: nat, n: nat)
    requires n == 0 || pos >= |all|
    ensures Stretch(all, pos, n) == []
  {
  }
}
