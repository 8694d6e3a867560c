/** What the write loop of frat.c does to a file, and exactly when. */
module Write {
  import opened Arith
  import opened ClusterMap
  import opened FileStore

  /** The last block index a write of n > 0 bytes at pos touches. */
  function LastBlock(pos: nat, n: nat, B: nat): nat
    requires B > 0 && n > 0
  {
    (pos + n - 1) / B
  }

  /** How many blocks must be added so that blocks 1 .. last exist, from t. */
  function Missing(t: nat, last: nat): nat { if last > t then last - t else 0 }

  /** n allocate-and-fill steps for the family at h: the map and hint part of n calls of __faddr. */
  function Grow(m: Slots, hint: nat, h: nat, n: nat): (r: (Slots, nat))
    requires h < |m|
    ensures |r.0| == |m|
    decreases n
  {
    if n == 0 then (m, hint)
    else
      var f := FreeFrom(m, hint);
      if f < |m| then Grow(m[f := NextSlot(m, h)], f, h, n - 1) else Grow(m, 0, h, n - 1)
  }

  lemma {:induction false} GrowGrow(m: Slots, hint: nat, h: nat, a: nat, b: nat)
    requires h < |m|
    ensures var (m', hint') := Grow(m, hint, h, a); Grow(m', hint', h, b) == Grow(m, hint, h, a + b)
    decreases a
  {
    if a > 0 {
      var f := FreeFrom(m, hint);
      if f < |m| {
        GrowGrow(m[f := NextSlot(m, h)], f, h, a - 1, b);
      } else {
        GrowGrow(m, 0, h, a - 1, b);
      }
    }
  }

  /** The data blocks a state owes to a position: it lies in the file or in the block after it. */
  ghost predicate Reaches(st: Store, h: nat, pos: nat, B: nat)
  {
    Valid(st, B) && LiveHead(st.map_, h) && 1 <= pos / B <= Tails(st.map_, st.map_[h].code) + 1
  }

  /** st' is st after n more blocks were taken for the file at h, its own data blocks aside. */
  ghost predicate Grew(st: Store, st': Store, h: nat, n: nat, B: nat)
  {
    && LiveHead(st.map_, h) && Valid(st, B) && Valid(st', B)
    && var c := st.map_[h].code;
    && Frame(st, st', c)
    && Tails(st'.map_, c) == Tails(st.map_, c) + n
    && Grow(st.map_, st.hint, h, n) == (st'.map_, st'.hint)
    && FreeCount(st'.map_, st'.hint) == FreeCount(st.map_, st.hint) - n
  }

  lemma GrewTrans(s0: Store, s1: Store, s2: Store, h: nat, n: nat, k: nat, nk: nat, B: nat)
    requires Grew(s0, s1, h, n, B) && Grew(s1, s2, h, k, B) && nk == n + k
    ensures Grew(s0, s2, h, nk, B)
  {
    FrameHead(s0, s1, h);
    FrameTrans(s0, s1, s2, s0.map_[h].code);
    GrowGrow(s0.map_, s0.hint, h, n, k);
  }

  lemma PatchedTrans(s0: Store, s1: Store, s2: Store, c: Fcode, s: nat, s': nat,
                     a: seq<byte>, b: seq<byte>, ab: seq<byte>, B: nat)
    requires s' == s + |a| && ab == a + b
    requires Patched(s0, s1, c, s, a, B) && Patched(s1, s2, c, s', b, B)
    ensures Patched(s0, s2, c, s, ab, B)
  {
    PatchPatch(Contents(s0, c, B), s, a, b, B);
  }

  // ---------------------------------------------------------------- one chunk, either way

  lemma Step(st: Store, h: nat, pos: nat, d: seq<byte>, n: nat, B: nat)
    requires Reaches(st, h, pos, B) && d != [] && pos % B + |d| <= B
    requires n == Missing(Tails(st.map_, st.map_[h].code), pos / B) && n <= FreeCount(st.map_, st.hint)
    ensures Grew(st, WriteStep(st, h, pos, d, B), h, n, B)
    ensures pos >= B && Patched(st, WriteStep(st, h, pos, d, B), st.map_[h].code, pos - B, d, B)
  {
    var c := st.map_[h].code;
    if pos / B <= Tails(st.map_, c) {
      StepInPlace(st, h, pos, d, B);
    } else {
      FreeCountFrom(st.map_, st.hint);
      StepNewBlock(st, h, pos, d, B);
      FillFirst(st.map_, st.hint, NextSlot(st.map_, h));
      var f := FreeFrom(st.map_, st.hint);
      assert Grow(st.map_[f := NextSlot(st.map_, h)], f, h, 0) == (st.map_[f := NextSlot(st.map_, h)], f);
    }
  }

  /** A chunk that does not finish a write ends at a block boundary. */
  lemma NextChunk(pos: nat, n: nat, B: nat)
    requires B > 0 && n == B - pos % B
    ensures (pos + n) / B == pos / B + 1
  {
    DivMod(pos, B);
    DivIs(pos + n, B, pos / B + 1, 0);
  }

  /** The chunk's block is the last one of the write or an earlier one. */
  lemma ChunkWithin(pos: nat, n: nat, B: nat)
    requires B > 0 && n > 0
    ensures pos / B <= LastBlock(pos, n, B)
    ensures n <= B - pos % B ==> LastBlock(pos, n, B) == pos / B
  {
    DivMono(pos, pos + n - 1, B);
    DivMod(pos, B);
    if n <= B - pos % B {
      DivIs(pos + n - 1, B, pos / B, pos % B + n - 1);
    }
  }

  // ---------------------------------------------------------------- the whole loop

  /** The write starts in the file or in the block after it, and enough free slots lie ahead of the hint. */
  ghost predicate RoomFor(st: Store, h: nat, pos: nat, n: nat, B: nat)
  {
    && Reaches(st, h, pos, B) && n > 0
    && Missing(Tails(st.map_, st.map_[h].code), LastBlock(pos, n, B)) <= FreeCount(st.map_, st.hint)
  }

  /** The blocks missing for a whole write are those missing for its first chunk and then for the rest. */
  lemma MissingSplit(pos: nat, n: nat, len: nat, pos': nat, len': nat, t: nat, B: nat)
    requires B > 0 && n == B - pos % B < len && 1 <= pos / B <= t + 1
    requires pos' == pos + n && len' == len - n
    ensures var l, k := LastBlock(pos, len, B), Missing(t, pos / B);
      && LastBlock(pos', len', B) == l
      && k + Missing(t + k, l) == Missing(t, l)
      && 1 <= pos' / B <= t + k + 1
  {
    NextChunk(pos, n, B);
    ChunkWithin(pos', len', B);
    assert pos' + len' - 1 == pos + len - 1;
  }

  /** r is what the loop makes of st. */
  ghost predicate LoopEnds(st: Store, h: nat, pos: nat, data: seq<byte>, B: nat, r: Store)
  {
    Shaped(st, B) && h < |st.map_| && r == WriteLoop(st, h, pos, data, B)
  }

  /** d is the first chunk of data at pos, rest what follows it at pos'. */
  ghost predicate FirstChunk(pos: nat, data: seq<byte>, d: seq<byte>, rest: seq<byte>, pos': nat, B: nat)
  {
    && B > 0 && data != [] && pos + |data| < TWO_64
    && data == d + rest && |d| == Chunk(pos, |data|, B) && pos' == pos + |d|
  }

  lemma LoopUnroll(st: Store, h: nat, pos: nat, data: seq<byte>, r: Store,
                   d: seq<byte>, rest: seq<byte>, pos': nat, st1: Store, B: nat)
    requires LoopEnds(st, h, pos, data, B, r) && FirstChunk(pos, data, d, rest, pos', B)
    requires pos % B + |d| <= B && st1 == WriteStep(st, h, pos, d, B)
    ensures LoopEnds(st1, h, pos', rest, B, r)
    ensures rest == [] ==> r == st1
  {
    var len := |d|;
    NoWrap(pos');
    assert data[..len] == d && data[len..] == rest;
  }

  /** One turn of the loop. */
  lemma LoopTurn(st: Store, h: nat, pos: nat, data: seq<byte>, r: Store,
                 d: seq<byte>, rest: seq<byte>, pos': nat, n: nat, B: nat) returns (st1: Store)
    requires Reaches(st, h, pos, B) && LoopEnds(st, h, pos, data, B, r) && FirstChunk(pos, data, d, rest, pos', B)
    requires n == Missing(Tails(st.map_, st.map_[h].code), pos / B) && n <= FreeCount(st.map_, st.hint)
    ensures Grew(st, st1, h, n, B)
    ensures pos >= B && Patched(st, st1, st.map_[h].code, pos - B, d, B)
    ensures LoopEnds(st1, h, pos', rest, B, r)
    ensures rest == [] ==> r == st1
  {
    st1 := WriteStep(st, h, pos, d, B);
    LoopUnroll(st, h, pos, data, r, d, rest, pos', st1, B);
    Step(st, h, pos, d, n, B);
  }

  lemma RestFits(st: Store, st1: Store, h: nat, pos: nat, len: nat, n: nat, k: nat, B: nat)
    requires Grew(st, st1, h, n, B) && len > 0 && k <= FreeCount(st.map_, st.hint) - n
    requires 1 <= pos / B <= Tails(st.map_, st.map_[h].code) + n + 1
    requires k == Missing(Tails(st.map_, st.map_[h].code) + n, LastBlock(pos, len, B))
    ensures RoomFor(st1, h, pos, len, B) && st1.map_[h] == st.map_[h]
    ensures k == Missing(Tails(st1.map_, st1.map_[h].code), LastBlock(pos, len, B))
  {
    FrameHead(st, st1, h);
  }

  /** A turn that leaves something to write. */
  lemma LoopAdvance(st: Store, h: nat, pos: nat, data: seq<byte>, r: Store, n: nat,
                    d: seq<byte>, rest: seq<byte>, pos': nat, B: nat) returns (st1: Store, n1: nat, n2: nat)
    requires RoomFor(st, h, pos, |data|, B) && LoopEnds(st, h, pos, data, B, r)
    requires n == Missing(Tails(st.map_, st.map_[h].code), LastBlock(pos, |data|, B))
    requires FirstChunk(pos, data, d, rest, pos', B) && rest != []
    ensures Grew(st, st1, h, n1, B) && n == n1 + n2
    ensures pos >= B && Patched(st, st1, st.map_[h].code, pos - B, d, B)
    ensures LoopEnds(st1, h, pos', rest, B, r) && RoomFor(st1, h, pos', |rest|, B)
    ensures n2 == Missing(Tails(st1.map_, st1.map_[h].code), LastBlock(pos', |rest|, B))
    ensures st1.map_[h] == st.map_[h]
  {
    hide Inv, WriteLoop, FreeCount, Tails, Frame, Grew, Patched;
    DivMod(pos, B);
    var t := Tails(st.map_, st.map_[h].code);
    n1 := Missing(t, pos / B);
    n2 := Missing(t + n1, LastBlock(pos, |data|, B));
    ChunkWithin(pos, |data|, B);
    MissingSplit(pos, |d|, |data|, pos', |rest|, t, B);
    st1 := LoopTurn(st, h, pos, data, r, d, rest, pos', n1, B);
    RestFits(st, st1, h, pos', |rest|, n1, n2, B);
  }

  /** The last turn. */
  lemma LoopFinish(st: Store, h: nat, pos: nat, data: seq<byte>, r: Store, n: nat, B: nat)
    requires RoomFor(st, h, pos, |data|, B) && LoopEnds(st, h, pos, data, B, r)
    requires n == Missing(Tails(st.map_, st.map_[h].code), LastBlock(pos, |data|, B))
    requires FirstChunk(pos, data, data, [], pos + |data|, B)
    ensures Grew(st, r, h, n, B)
    ensures pos >= B && Patched(st, r, st.map_[h].code, pos - B, data, B)
  {
    ChunkWithin(pos, |data|, B);
    var st1 := LoopTurn(st, h, pos, data, r, data, [], pos + |data|, n, B);
  }

  lemma SplitChunk(pos: nat, data: seq<byte>, B: nat) returns (d: seq<byte>, rest: seq<byte>, pos': nat)
    requires B > 0 && data != [] && pos + |data| < TWO_64
    ensures FirstChunk(pos, data, d, rest, pos', B)
    ensures |rest| < |data| && (rest == [] ==> FirstChunk(pos, data, data, [], pos + |data|, B))
  {
    var len := Chunk(pos, |data|, B);
    d, rest, pos' := data[..len], data[len..], pos + len;
    assert data == d + rest;
    if rest == [] {
      assert data == data + [];
    }
  }

  lemma {:induction false} LoopGrows(st: Store, r: Store, h: nat, pos: nat, data: seq<byte>, n: nat, B: nat)
    requires RoomFor(st, h, pos, |data|, B) && pos + |data| < TWO_64 && LoopEnds(st, h, pos, data, B, r)
    requires n == Missing(Tails(st.map_, st.map_[h].code), LastBlock(pos, |data|, B))
    ensures Grew(st, r, h, n, B)
    decreases |data|
  {
    var d, rest, pos1 := SplitChunk(pos, data, B);
    if rest == [] {
      LoopFinish(st, h, pos, data, r, n, B);
    } else {
      var st1, n1, n2 := LoopAdvance(st, h, pos, data, r, n, d, rest, pos1, B);
      LoopGrows(st1, r, h, pos1, rest, n2, B);
      GrewTrans(st, st1, r, h, n1, n2, n, B);
    }
  }

  lemma PatchedChunk(s0: Store, s1: Store, s2: Store, c: Fcode,
                     pos: nat, data: seq<byte>, d: seq<byte>, rest: seq<byte>, pos': nat, B: nat)
    requires FirstChunk(pos, data, d, rest, pos', B) && B <= pos
    requires Patched(s0, s1, c, pos - B, d, B) && Patched(s1, s2, c, pos' - B, rest, B)
    ensures Patched(s0, s2, c, pos - B, data, B)
  {
    PatchedTrans(s0, s1, s2, c, pos - B, pos' - B, d, rest, data, B);
  }

  lemma {:induction false} LoopPatches(st: Store, r: Store, h: nat, c: Fcode, pos: nat, data: seq<byte>, n: nat, B: nat)
    requires RoomFor(st, h, pos, |data|, B) && pos + |data| < TWO_64 && LoopEnds(st, h, pos, data, B, r)
    requires c == st.map_[h].code && n == Missing(Tails(st.map_, c), LastBlock(pos, |data|, B))
    ensures pos >= B && Patched(st, r, c, pos - B, data, B)
    decreases |data|
  {
    var d, rest, pos1 := SplitChunk(pos, data, B);
    if rest == [] {
      LoopFinish(st, h, pos, data, r, n, B);
    } else {
      var st1, n1, n2 := LoopAdvance(st, h, pos, data, r, n, d, rest, pos1, B);
      LoopPatches(st1, r, h, c, pos1, rest, n2, B);
      PatchedChunk(st, st1, r, c, pos, data, d, rest, pos1, B);
    }
  }
}
