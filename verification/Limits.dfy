/** When a write falls short: the exact condition under which it does what it should. */
module Limits {
  import opened Arith
  import opened ClusterMap
  import opened FileStore
  import opened Write

  /** Whatever the position, a chunk keeps the map sound and adds one block at most. */
  ghost predicate Soundly(st: Store, st': Store, h: nat, B: nat)
  {
    && Valid(st, B) && Valid(st', B) && LiveHead(st.map_, h) && LiveHead(st'.map_, h)
    && st'.map_[h] == st.map_[h] && Confined(st, st', h)
    && Tails(st.map_, st.map_[h].code) <= Tails(st'.map_, st.map_[h].code)
  }

  lemma BlocksOnly(st: Store, k: nat, b: seq<byte>, B: nat)
    requires Valid(st, B) && k < |st.blocks| && |b| == B
    ensures Valid(st.(blocks := st.blocks[k := b]), B)
  {
  }

  /** The cases of __fpush1, for any block index. */
  lemma PushAny(st: Store, h: nat, ix: nat, b: seq<byte>, B: nat) returns (r: Store, n: nat)
    requires Valid(st, B) && LiveHead(st.map_, h) && |b| == B
    ensures r == Push(st, h, ix, b, B)
    ensures Soundly(st, r, h, B) && n <= 1 && Tails(r.map_, st.map_[h].code) == Tails(st.map_, st.map_[h].code) + n
    ensures FreeCount(st.map_, st.hint) == 0 ==> n == 0
    ensures Has(st.map_, st.map_[h].code, ix % TWO_32) ==> n == 0
  {
    r, n := Push(st, h, ix, b, B), 0;
    var c, k := st.map_[h].code, Find(st.map_, st.map_[h].code, ix % TWO_32);
    assert At(st.map_, h);
    if ix != 0 {
      if k < |st.map_| {
        BlocksOnly(st, k, b, B);
        if ix % TWO_32 == 0 {
          FindUnique(st.map_, c, 0, h);
        }
      } else {
        FreeCountFrom(st.map_, st.hint);
        var f := FreeFrom(st.map_, st.hint);
        if f < |st.map_| {
          n := 1;
          assert st.blocks[f := Zeros(B)][f := b] == st.blocks[f := b];
          assert Appended(st, r, h, f, b);
          AppendBlock(st, r, h, f, b, B);
          FrameHead(st, r, h);
        }
      }
    }
  }

  /** The block index is looked up in 32 bits: a data block whose index is a multiple of 2^32 is taken
      for the head, and the head block is overwritten; no other data block reaches it. */
  lemma HeadAliased(st: Store, h: nat, ix: nat, b: seq<byte>, B: nat)
    requires Valid(st, B) && LiveHead(st.map_, h) && |b| == B && ix > 0
    ensures Push(st, h, ix, b, B).blocks[h] == if ix % TWO_32 == 0 then b else st.blocks[h]
  {
    FindAny(st.map_, st.map_[h].code, 0, h);
    FindUnique(st.map_, st.map_[h].code, 0, h);
  }

  lemma StepAny(st: Store, h: nat, pos: nat, d: seq<byte>, B: nat) returns (r: Store, n: nat)
    requires Valid(st, B) && LiveHead(st.map_, h) && pos % B + |d| <= B
    ensures r == WriteStep(st, h, pos, d, B)
    ensures Soundly(st, r, h, B) && n <= 1 && Tails(r.map_, st.map_[h].code) == Tails(st.map_, st.map_[h].code) + n
    ensures FreeCount(st.map_, st.hint) == 0 ==> n == 0
    ensures Has(st.map_, st.map_[h].code, (pos / B) % TWO_32) ==> n == 0
  {
    r, n := PushAny(st, h, pos / B, Merged(Load(st, h, pos / B, B), pos % B, d, B), B);
  }

  lemma UnrollWrap(st: Store, h: nat, pos: nat, data: seq<byte>, r: Store, d: seq<byte>, st1: Store, B: nat)
    requires LoopEnds(st, h, pos, data, B, r) && data != [] && d == data[..Chunk(pos, |data|, B)]
    requires st1 == WriteStep(st, h, pos, d, B)
    ensures LoopEnds(st1, h, (pos + |d|) % TWO_64, data[|d|..], B, r)
  {
  }

  /** One turn of the loop at any position, which may wrap. */
  lemma TurnAny(st: Store, h: nat, pos: nat, data: seq<byte>, r: Store, B: nat)
    returns (st1: Store, pos1: nat, rest: seq<byte>)
    requires Valid(st, B) && LiveHead(st.map_, h) && data != [] && LoopEnds(st, h, pos, data, B, r)
    ensures Soundly(st, st1, h, B) && LoopEnds(st1, h, pos1, rest, B, r) && |rest| < |data|
  {
    var d, n := data[..Chunk(pos, |data|, B)], 0;
    st1, n := StepAny(st, h, pos, d, B);
    pos1, rest := (pos + |d|) % TWO_64, data[|d|..];
    UnrollWrap(st, h, pos, data, r, d, st1, B);
  }

  lemma SoundlyTrans(s0: Store, s1: Store, s2: Store, h: nat, B: nat)
    requires Soundly(s0, s1, h, B) && Soundly(s1, s2, h, B)
    ensures Soundly(s0, s2, h, B)
  {
    ConfinedTrans(s0, s1, s2, h);
  }

  /** No write, wherever it starts, breaks the map. */
  lemma {:induction false} LoopSound(st: Store, r: Store, h: nat, pos: nat, data: seq<byte>, B: nat)
    requires Valid(st, B) && LiveHead(st.map_, h) && LoopEnds(st, h, pos, data, B, r)
    ensures Soundly(st, r, h, B)
    decreases |data|
  {
    if data != [] {
      var st1, pos1, rest := TurnAny(st, h, pos, data, r, B);
      LoopSound(st1, r, h, pos1, rest, B);
      SoundlyTrans(st, st1, r, h, B);
    }
  }

  /** The blocks a first chunk and the rest of a write lie in. */
  lemma TurnBlocks(pos: nat, len: nat, n: nat, pos1: nat, len1: nat, B: nat)
    requires B > 0 && len > 0 && n == Chunk(pos, len, B) && pos1 == pos + n && len1 == len - n
    ensures LastBlock(pos, len, B) >= pos / B
    ensures len1 > 0 ==> pos1 / B == pos / B + 1 && LastBlock(pos1, len1, B) == LastBlock(pos, len, B)
    ensures len1 == 0 ==> LastBlock(pos, len, B) == pos / B
  {
    ChunkWithin(pos, len, B);
    if len1 > 0 {
      NextChunk(pos, n, B);
      assert pos1 + len1 - 1 == pos + len - 1;
    }
  }

  /** One turn at a position that does not wrap, whether or not a block could be added. */
  lemma TurnCounted(st: Store, h: nat, pos: nat, data: seq<byte>, r: Store,
                    d: seq<byte>, rest: seq<byte>, pos1: nat, t: nat, B: nat) returns (st1: Store, n: nat)
    requires Valid(st, B) && LiveHead(st.map_, h) && LoopEnds(st, h, pos, data, B, r)
    requires FirstChunk(pos, data, d, rest, pos1, B) && t == Tails(st.map_, st.map_[h].code)
    ensures pos % B + |d| <= B && st1 == WriteStep(st, h, pos, d, B)
    ensures Soundly(st, st1, h, B) && LoopEnds(st1, h, pos1, rest, B, r) && (rest == [] ==> r == st1)
    ensures n <= 1 && Tails(st1.map_, st.map_[h].code) == t + n
    ensures FreeCount(st.map_, st.hint) == 0 ==> n == 0
  {
    st1, n := StepAny(st, h, pos, d, B);
    LoopUnroll(st, h, pos, data, r, d, rest, pos1, st1, B);
  }

  /** A write adds at most one block for each block it touches. */
  lemma {:induction false} LoopBound(st: Store, r: Store, h: nat, c: Fcode, pos: nat, data: seq<byte>, B: nat)
    requires Valid(st, B) && LiveHead(st.map_, h) && c == st.map_[h].code
    requires data != [] && pos + |data| < TWO_64 && LoopEnds(st, h, pos, data, B, r)
    ensures Tails(r.map_, c) + pos / B <= Tails(st.map_, c) + LastBlock(pos, |data|, B) + 1
    decreases |data|
  {
    var d, rest, pos1 := SplitChunk(pos, data, B);
    var st1, n := TurnCounted(st, h, pos, data, r, d, rest, pos1, Tails(st.map_, c), B);
    TurnBlocks(pos, |data|, |d|, pos1, |rest|, B);
    if rest != [] {
      LoopBound(st1, r, h, c, pos1, rest, B);
    }
  }

  /** With too few free slots ahead of the hint, some block of the write is never added. */
  lemma {:induction false} LoopRunsOut(st: Store, r: Store, h: nat, c: Fcode, pos: nat, data: seq<byte>, B: nat)
    requires Reaches(st, h, pos, B) && c == st.map_[h].code
    requires data != [] && pos + |data| < TWO_64 && LoopEnds(st, h, pos, data, B, r)
    requires Missing(Tails(st.map_, c), LastBlock(pos, |data|, B)) > FreeCount(st.map_, st.hint)
    ensures Tails(r.map_, c) < LastBlock(pos, |data|, B)
    decreases |data|
  {
    hide Inv, WriteLoop, FreeCount, Tails;
    var t, l := Tails(st.map_, c), LastBlock(pos, |data|, B);
    var d, rest, pos1 := SplitChunk(pos, data, B);
    ChunkWithin(pos, |data|, B);
    var n1 := Missing(t, pos / B);
    if n1 <= FreeCount(st.map_, st.hint) {
      var st1 := LoopTurn(st, h, pos, data, r, d, rest, pos1, n1, B);
      assert rest != [];
      MissingSplit(pos, |d|, |data|, pos1, |rest|, t, B);
      FrameHead(st, st1, h);
      LoopRunsOut(st1, r, h, c, pos1, rest, B);
    } else {
      var st1, n := TurnCounted(st, h, pos, data, r, d, rest, pos1, t, B);
      TurnBlocks(pos, |data|, |d|, pos1, |rest|, B);
      if rest != [] {
        LoopBound(st1, r, h, c, pos1, rest, B);
      }
    }
  }

  /** The last block of a write exists afterwards exactly when the write starts no later than the block
      after the file and enough free slots lie at or above the hint. */
  lemma WriteReaches(st: Store, r: Store, h: nat, c: Fcode, pos: nat, data: seq<byte>, l: nat, B: nat)
    requires Valid(st, B) && LiveHead(st.map_, h) && c == st.map_[h].code
    requires B <= pos && data != [] && pos + |data| < TWO_64 && l == LastBlock(pos, |data|, B)
    requires LoopEnds(st, h, pos, data, B, r)
    ensures l <= Tails(r.map_, c) <==>
            pos / B <= Tails(st.map_, c) + 1 && Missing(Tails(st.map_, c), l) <= FreeCount(st.map_, st.hint)
  {
    var t := Tails(st.map_, c);
    DivLess(pos, B, 1);
    if pos / B > t + 1 {
      LoopBound(st, r, h, c, pos, data, B);
    } else if Missing(t, l) > FreeCount(st.map_, st.hint) {
      LoopRunsOut(st, r, h, c, pos, data, B);
    } else {
      LoopGrows(st, r, h, pos, data, Missing(t, l), B);
    }
  }

  /** A write patches the file exactly when it starts no later than the block after the file
      and enough free slots lie at or above the hint. */
  lemma WriteExactly(st: Store, r: Store, h: nat, pos: nat, data: seq<byte>, B: nat)
    requires Valid(st, B) && LiveHead(st.map_, h)
    requires B <= pos && data != [] && pos + |data| < TWO_64
    requires r == WriteLoop(st, h, pos, data, B)
    ensures Valid(r, B)
    ensures var c := st.map_[h].code;
      (Contents(r, c, B) == Patch(Contents(st, c, B), pos - B, data, B)) <==>
      (pos / B <= Tails(st.map_, c) + 1
       && Missing(Tails(st.map_, c), LastBlock(pos, |data|, B)) <= FreeCount(st.map_, st.hint))
  {
    var c, l := st.map_[h].code, LastBlock(pos, |data|, B);
    assert LoopEnds(st, h, pos, data, B, r);
    LoopSound(st, r, h, pos, data, B);
    DivLess(pos, B, 1);
    WriteReaches(st, r, h, c, pos, data, l, B);
    if l <= Tails(r.map_, c) {
      LoopPatches(st, r, h, c, pos, data, Missing(Tails(st.map_, c), l), B);
    } else {
      ShortOfLast(st, r, c, pos, data, l, B);
    }
  }

  /** A file with fewer than l blocks cannot hold a write that ends in block l. */
  lemma ShortOfLast(st: Store, r: Store, c: Fcode, pos: nat, data: seq<byte>, l: nat, B: nat)
    requires Valid(st, B) && Valid(r, B) && c != NO_FILE && B <= pos && data != []
    requires l == LastBlock(pos, |data|, B) && Tails(r.map_, c) < l
    ensures Contents(r, c, B) != Patch(Contents(st, c, B), pos - B, data, B)
  {
    hide Inv, Overlay, Flat, RoundUp;
    var t, o, e := Tails(r.map_, c), Contents(st, c, B), pos - B + |data|;
    FlatLength(FileBlocks(r, c, B), B);
    SpanIs(t, B);
    DivMod(pos + |data| - 1, B);
    MulGap(t, l, B);
    assert |Contents(r, c, B)| < e;
    RoundUpMono(e, e, B);
    assert |Patch(o, pos - B, data, B)| >= e;
  }

  // ---------------------------------------------------------------- the metadata block

  /** A block number that is looked up as the head's. */
  ghost predicate Aliased(x: nat) { x % TWO_32 == 0 }

  /** The head block after one chunk of data. */
  lemma StepHead(st: Store, h: nat, pos: nat, d: seq<byte>, x: nat, B: nat)
    requires Valid(st, B) && LiveHead(st.map_, h) && x == pos / B >= 1 && pos % B + |d| <= B
    ensures WriteStep(st, h, pos, d, B).blocks[h]
            == if Aliased(x) then Merged(Some(st.blocks[h]), pos % B, d, B) else st.blocks[h]
  {
    FindAny(st.map_, st.map_[h].code, 0, h);
    FindUnique(st.map_, st.map_[h].code, 0, h);
    HeadAliased(st, h, x, Merged(Load(st, h, x, B), pos % B, d, B), B);
  }

  /** One turn, as the head block sees it. */
  lemma TurnHead(st: Store, h: nat, pos: nat, data: seq<byte>, r: Store, x: nat, l: nat, B: nat)
    returns (st1: Store, d: seq<byte>, rest: seq<byte>, pos1: nat)
    requires Valid(st, B) && LiveHead(st.map_, h) && LoopEnds(st, h, pos, data, B, r)
    requires data != [] && pos + |data| < TWO_64 && x == pos / B >= 1 && l == LastBlock(pos, |data|, B)
    ensures FirstChunk(pos, data, d, rest, pos1, B) && d != [] && |rest| < |data| && x <= l
    ensures Soundly(st, st1, h, B) && LoopEnds(st1, h, pos1, rest, B, r) && (rest == [] ==> r == st1 && l == x)
    ensures rest != [] ==> pos1 / B == x + 1 && pos1 % B == 0 && LastBlock(pos1, |rest|, B) == l
    ensures pos % B + |d| <= B
    ensures st1.blocks[h] == if Aliased(x) then Merged(Some(st.blocks[h]), pos % B, d, B) else st.blocks[h]
  {
    var n;
    d, rest, pos1 := SplitChunk(pos, data, B);
    st1, n := TurnCounted(st, h, pos, data, r, d, rest, pos1, Tails(st.map_, st.map_[h].code), B);
    TurnBlocks(pos, |data|, |d|, pos1, |rest|, B);
    StepHead(st, h, pos, d, x, B);
    if rest != [] {
      ChunkEnds(pos, |d|, pos1, B);
    }
  }

  lemma ChunkEnds(pos: nat, n: nat, pos1: nat, B: nat)
    requires B > 0 && n == B - pos % B && pos1 == pos + n
    ensures pos1 % B == 0
  {
    DivMod(pos, B);
    DivIs(pos1, B, pos / B + 1, 0);
  }

  /** A write that touches no such block keeps the head block. */
  lemma {:induction false} LoopSparesHead(st: Store, r: Store, h: nat, pos: nat, data: seq<byte>,
                                          y: nat, l: nat, B: nat)
    requires Valid(st, B) && LiveHead(st.map_, h) && LoopEnds(st, h, pos, data, B, r)
    requires data != [] && pos + |data| < TWO_64 && y == pos / B >= 1 && l == LastBlock(pos, |data|, B)
    requires forall x: nat :: y <= x <= l ==> !Aliased(x)
    ensures h < |r.blocks| && r.blocks[h] == st.blocks[h]
    decreases |data|
  {
    var st1, d, rest, pos1 := TurnHead(st, h, pos, data, r, y, l, B);
    if rest != [] {
      LoopSparesHead(st1, r, h, pos1, rest, y + 1, l, B);
    }
  }

  ghost predicate Uniform(d: seq<byte>, v: byte) { forall i :: 0 <= i < |d| ==> d[i] == v }

  lemma UniformParts(d: seq<byte>, rest: seq<byte>, data: seq<byte>, v: byte)
    requires data == d + rest && Uniform(data, v)
    ensures Uniform(d, v) && Uniform(rest, v)
  {
    assert d == data[..|d|] && rest == data[|d|..];
  }

  /** Byte k of the head block is v. */
  ghost predicate HeadByte(st: Store, h: nat, k: nat, v: byte, B: nat)
  {
    Shaped(st, B) && h < |st.map_| && k < B && st.blocks[h][k] == v
  }

  lemma MergedByte(blk: seq<byte>, off: nat, d: seq<byte>, k: nat, v: byte, B: nat)
    requires off + |d| <= B && |blk| == B && k < B && Uniform(d, v)
    ensures blk[k] == v ==> Merged(Some(blk), off, d, B)[k] == v
    ensures off <= k < off + |d| ==> Merged(Some(blk), off, d, B)[k] == v
  {
    MergedSome(blk, off, d, B);
  }

  /** A byte of the head block that has the value written keeps it. */
  lemma {:induction false} LoopKeepsByte(st: Store, r: Store, h: nat, pos: nat, data: seq<byte>,
                                         y: nat, k: nat, v: byte, B: nat)
    requires Valid(st, B) && LiveHead(st.map_, h) && LoopEnds(st, h, pos, data, B, r) && HeadByte(st, h, k, v, B)
    requires data != [] ==> pos + |data| < TWO_64 && y == pos / B >= 1
    requires Uniform(data, v)
    ensures HeadByte(r, h, k, v, B)
    decreases |data|
  {
    if data != [] {
      var st1, d, rest, pos1 := TurnHead(st, h, pos, data, r, y, LastBlock(pos, |data|, B), B);
      UniformParts(d, rest, data, v);
      MergedByte(st.blocks[h], pos % B, d, k, v, B);
      LoopKeepsByte(st1, r, h, pos1, rest, y + 1, k, v, B);
    }
  }

  /** A write that touches such a block x changes the head block at the place k where it enters x. */
  lemma {:induction false} LoopReachesHead(st: Store, r: Store, h: nat, pos: nat, data: seq<byte>,
                                           y: nat, l: nat, x: nat, k: nat, v: byte, B: nat)
    requires Valid(st, B) && LiveHead(st.map_, h) && LoopEnds(st, h, pos, data, B, r)
    requires data != [] && pos + |data| < TWO_64 && y == pos / B >= 1 && l == LastBlock(pos, |data|, B)
    requires y <= x <= l && Aliased(x) && k == (if x == y then pos % B else 0) && Uniform(data, v)
    ensures HeadByte(r, h, k, v, B)
    decreases |data|
  {
    var st1, d, rest, pos1 := TurnHead(st, h, pos, data, r, y, l, B);
    UniformParts(d, rest, data, v);
    if x == y {
      MergedByte(st.blocks[h], pos % B, d, k, v, B);
      LoopKeepsByte(st1, r, h, pos1, rest, y + 1, k, v, B);
    } else {
      LoopReachesHead(st1, r, h, pos1, rest, y + 1, l, x, k, v, B);
    }
  }

  /** n bytes that the write would bring to place k of the head block, where another byte stands. */
  lemma Clobbering(st: Store, h: nat, pos: nat, n: nat, y: nat, l: nat, x: nat, B: nat) returns (data: seq<byte>)
    requires Valid(st, B) && LiveHead(st.map_, h) && n > 0 && pos + n < TWO_64
    requires 1 <= y == pos / B <= x <= l == LastBlock(pos, n, B) && Aliased(x)
    ensures |data| == n && WriteLoop(st, h, pos, data, B).blocks[h] != st.blocks[h]
  {
    var k := if x == y then pos % B else 0;
    var v: byte := if st.blocks[h][k] == 0 then 1 else 0;
    data := seq(n, _ => v);
    var r := WriteLoop(st, h, pos, data, B);
    assert LoopEnds(st, h, pos, data, B, r);
    LoopReachesHead(st, r, h, pos, data, y, l, x, k, v, B);
  }

  /** A write of n bytes keeps the head block, whatever the bytes, exactly when it touches no block whose
      number is a multiple of 2^32. */
  lemma HeadKeptExactly(st: Store, h: nat, pos: nat, n: nat, B: nat)
    requires Valid(st, B) && LiveHead(st.map_, h) && B <= pos && n > 0 && pos + n < TWO_64
    ensures (forall data: seq<byte> :: |data| == n ==> WriteLoop(st, h, pos, data, B).blocks[h] == st.blocks[h])
            <==> (forall x: nat :: pos / B <= x <= LastBlock(pos, n, B) ==> !Aliased(x))
  {
    var y, l := pos / B, LastBlock(pos, n, B);
    DivLess(pos, B, 1);
    if x: nat :| y <= x <= l && Aliased(x) {
      var data := Clobbering(st, h, pos, n, y, l, x, B);
    } else {
      forall data: seq<byte> | |data| == n
        ensures WriteLoop(st, h, pos, data, B).blocks[h] == st.blocks[h]
      {
        var r := WriteLoop(st, h, pos, data, B);
        assert LoopEnds(st, h, pos, data, B, r);
        LoopSparesHead(st, r, h, pos, data, y, l, B);
      }
    }
  }
}
