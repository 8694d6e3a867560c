/** Chunks of a write put together: what may be cut, and what two chunks in one block amount to. */
module Chunks {
  import opened Arith
  import opened ClusterMap
  import opened FileStore
  import opened Write
  import opened Limits

  /** The two states differ in the head block at most. */
  ghost predicate SameOffHead(r: Store, r': Store, h: nat)
  {
    && r.map_ == r'.map_ && r.hint == r'.hint && |r.blocks| == |r'.blocks|
    && forall k :: 0 <= k < |r.blocks| && k != h ==> r.blocks[k] == r'.blocks[k]
  }

  lemma SameRefl(r: Store, h: nat)
    ensures SameOffHead(r, r, h)
  {
  }

  lemma SameSquare(a: Store, b: Store, a': Store, b': Store, h: nat)
    requires SameOffHead(a, a', h) && SameOffHead(b, b', h)
    ensures SameOffHead(a, b, h) <==> SameOffHead(a', b', h)
  {
  }

  // ---------------------------------------------------------------- the head block does not matter

  lemma StepSame(r: Store, r': Store, h: nat, pos: nat, d: seq<byte>, B: nat)
    requires Shaped(r, B) && Shaped(r', B) && h < |r.map_| && SameOffHead(r, r', h) && pos % B + |d| <= B
    ensures SameOffHead(WriteStep(r, h, pos, d, B), WriteStep(r', h, pos, d, B), h)
  {
    hide Tails, Members, Merged;
    var k := Find(r.map_, r.map_[h].code, pos / B % TWO_32);
    if pos / B != r.map_[h].index && k < |r.map_| && k != h {
      assert Load(r, h, pos / B, B) == Load(r', h, pos / B, B);
    }
  }

  lemma {:induction false} LoopSame(st: Store, st': Store, r: Store, r': Store, h: nat, pos: nat,
                                    data: seq<byte>, B: nat)
    requires LoopEnds(st, h, pos, data, B, r) && LoopEnds(st', h, pos, data, B, r') && SameOffHead(st, st', h)
    ensures SameOffHead(r, r', h)
    decreases |data|
  {
    if data != [] {
      var d := data[..Chunk(pos, |data|, B)];
      StepSame(st, st', h, pos, d, B);
      UnrollWrap(st, h, pos, data, r, d, WriteStep(st, h, pos, d, B), B);
      UnrollWrap(st', h, pos, data, r', d, WriteStep(st', h, pos, d, B), B);
      LoopSame(WriteStep(st, h, pos, d, B), WriteStep(st', h, pos, d, B), r, r', h,
               (pos + |d|) % TWO_64, data[|d|..], B);
    }
  }

  // ---------------------------------------------------------------- the loop, taken apart

  /** d is a first chunk that fills its block or ends the write. */
  ghost predicate Leads(d: seq<byte>, rest: seq<byte>, pos: nat, pos': nat, B: nat)
  {
    && B > 0 && d != [] && pos' == pos + |d| < TWO_64
    && pos % B + |d| <= B && (rest == [] || pos % B + |d| == B)
  }

  /** d fills its block from pos on. */
  ghost predicate Fills(d: seq<byte>, pos: nat, pos': nat, B: nat)
  {
    B > 0 && d != [] && pos' == pos + |d| < TWO_64 && pos % B + |d| == B
  }

  lemma LeadChunk(d: seq<byte>, rest: seq<byte>, all: seq<byte>, pos: nat, pos': nat, B: nat)
    requires Leads(d, rest, pos, pos', B) && all == d + rest
    ensures all != [] && Chunk(pos, |all|, B) == |d| && all[..|d|] == d && all[|d|..] == rest
    ensures pos' == (pos + |d|) % TWO_64
  {
    NoWrap(pos');
  }

  lemma LoopOnce(st: Store, h: nat, pos: nat, d: seq<byte>, rest: seq<byte>, all: seq<byte>, pos': nat,
                 st1: Store, r: Store, B: nat)
    requires Shaped(st, B) && h < |st.map_| && Leads(d, rest, pos, pos', B) && all == d + rest
    requires st1 == WriteStep(st, h, pos, d, B)
    ensures LoopEnds(st, h, pos, all, B, r) <==> LoopEnds(st1, h, pos', rest, B, r)
  {
    LeadChunk(d, rest, all, pos, pos', B);
  }

  /** Up to the next block boundary there is at least what is left of the block. */
  lemma WholeChunk(pos: nat, n: nat, B: nat)
    requires B > 0 && n > 0 && (pos + n) % B == 0
    ensures pos % B + n >= B
  {
    if pos % B + n < B {
      DivMod(pos, B);
      DivIs(pos + n, B, pos / B, pos % B + n);
    }
  }

  /** The first chunk of a write up to a block boundary. */
  lemma FirstWhole(pos: nat, a: seq<byte>, pos': nat, B: nat) returns (d: seq<byte>, rest: seq<byte>, pos1: nat)
    requires B > 0 && a != [] && pos' == pos + |a| < TWO_64 && pos' % B == 0
    ensures a == d + rest && |rest| < |a| && pos1 == pos + |d| && pos' == pos1 + |rest|
    ensures Fills(d, pos, pos1, B) && pos1 / B == pos / B + 1
  {
    var n := B - pos % B;
    WholeChunk(pos, |a|, B);
    NextChunk(pos, n, B);
    d, rest, pos1 := a[..n], a[n..], pos + n;
  }

  /** A write may be cut at a block boundary. */
  lemma {:induction false} LoopConcat(st: Store, r1: Store, r: Store, h: nat, pos: nat,
                                      a: seq<byte>, b: seq<byte>, ab: seq<byte>, pos': nat, B: nat)
    requires LoopEnds(st, h, pos, a, B, r1) && LoopEnds(r1, h, pos', b, B, r)
    requires ab == a + b && pos' == pos + |a| < TWO_64 && (a == [] || pos' % B == 0)
    ensures LoopEnds(st, h, pos, ab, B, r)
    decreases |a|
  {
    hide WriteLoop, WriteStep, Fills;
    if a == [] {
      LoopNothing(st, h, pos, r1, B);
      assert ab == b;
    } else {
      var d, rest, pos1 := FirstWhole(pos, a, pos', B);
      var st1 := LoopTurnAt(st, h, pos, d, rest, a, pos1, r1, B);
      LoopConcat(st1, r1, r, h, pos1, rest, b, rest + b, pos', B);
      LoopBack(st, st1, r, h, pos, d, rest, a, b, ab, pos1, B);
    }
  }

  lemma LoopNothing(st: Store, h: nat, pos: nat, r: Store, B: nat)
    requires LoopEnds(st, h, pos, [], B, r)
    ensures r == st
  {
  }

  lemma LoopTurnAt(st: Store, h: nat, pos: nat, d: seq<byte>, rest: seq<byte>, a: seq<byte>, pos1: nat,
                   r: Store, B: nat) returns (st1: Store)
    requires LoopEnds(st, h, pos, a, B, r) && Fills(d, pos, pos1, B) && a == d + rest
    ensures pos % B + |d| <= B && st1 == WriteStep(st, h, pos, d, B) && LoopEnds(st1, h, pos1, rest, B, r)
  {
    st1 := WriteStep(st, h, pos, d, B);
    LoopOnce(st, h, pos, d, rest, a, pos1, st1, r, B);
  }

  lemma LoopBack(st: Store, st1: Store, r: Store, h: nat, pos: nat, d: seq<byte>, rest: seq<byte>,
                 a: seq<byte>, b: seq<byte>, ab: seq<byte>, pos1: nat, B: nat)
    requires Shaped(st, B) && h < |st.map_| && Fills(d, pos, pos1, B) && a == d + rest && ab == a + b
    requires st1 == WriteStep(st, h, pos, d, B) && LoopEnds(st1, h, pos1, rest + b, B, r)
    ensures LoopEnds(st, h, pos, ab, B, r)
  {
    assert ab == d + (rest + b);
    LoopOnce(st, h, pos, d, rest + b, ab, pos1, st1, r, B);
  }

  // ---------------------------------------------------------------- the shared block

  /** Laying a and then b over a block is laying a + b over it. */
  lemma MergedTwice(o: Option<seq<byte>>, off: nat, a: seq<byte>, b: seq<byte>, B: nat)
    requires off + |a| + |b| <= B && (o.Some? ==> |o.value| == B)
    ensures Merged(Some(Merged(o, off, a, B)), off + |a|, b, B) == Merged(o, off, a + b, B)
  {
    hide Merged, Overlay;
    var base := if o.Some? then o.value else [];
    if o.Some? {
      MergedSome(base, off, a, B);
      MergedSome(base, off, a + b, B);
    } else {
      MergedNone(off, a, B);
      MergedNone(off, a + b, B);
    }
    MergedSome(Merged(o, off, a, B), off + |a|, b, B);
    OverlayOverlay(base, B, B, off, a, b);
  }

  /** The block is there, and written over. */
  lemma StepFound(s: Store, h: nat, pos: nat, k: nat, d: seq<byte>, b: seq<byte>, B: nat)
    requires Valid(s, B) && LiveHead(s.map_, h) && pos / B >= 1 && pos % B + |d| <= B
    requires k == Find(s.map_, s.map_[h].code, pos / B % TWO_32) < |s.map_|
    requires b == Merged(Some(s.blocks[k]), pos % B, d, B)
    ensures WriteStep(s, h, pos, d, B) == s.(blocks := s.blocks[k := b])
  {
  }

  /** The block is not there, and a slot is found. */
  lemma StepTaken(s: Store, h: nat, pos: nat, f: nat, d: seq<byte>, b: seq<byte>, B: nat)
    requires Valid(s, B) && LiveHead(s.map_, h) && pos / B >= 1 && pos % B + |d| <= B
    requires !Has(s.map_, s.map_[h].code, pos / B % TWO_32) && f == FreeFrom(s.map_, s.hint) < |s.map_|
    requires b == Merged(None, pos % B, d, B)
    ensures WriteStep(s, h, pos, d, B) == Store(s.map_[f := NextSlot(s.map_, h)], f, s.blocks[f := b])
  {
    assert s.blocks[f := Zeros(B)][f := b] == s.blocks[f := b];
  }

  /** The block is not there, and no slot is found. */
  lemma StepFails(s: Store, h: nat, pos: nat, d: seq<byte>, B: nat)
    requires Valid(s, B) && LiveHead(s.map_, h) && pos / B >= 1 && pos % B + |d| <= B
    requires !Has(s.map_, s.map_[h].code, pos / B % TWO_32) && FreeFrom(s.map_, s.hint) == |s.map_|
    ensures WriteStep(s, h, pos, d, B) == s.(hint := 0)
  {
  }

  /** Without a free slot in the map none is found from any hint. */
  lemma {:induction false} NoneFree(m: Slots, k: nat)
    requires FreeCount(m, 0) == 0
    ensures FreeFrom(m, k) == |m|
  {
    FreeCountFrom(m, 0);
    if FreeFrom(m, k) < |m| {
      FreeFromLeast(m, 0, FreeFrom(m, k));
    }
  }

  /** Two steps in one block that was there before. */
  lemma MergeFound(s: Store, h: nat, p1: nat, p2: nat, a: seq<byte>, b: seq<byte>, s1: Store, B: nat)
    requires Valid(s, B) && LiveHead(s.map_, h) && p1 / B == p2 / B >= 1
    requires p2 % B == p1 % B + |a| && p2 % B + |b| <= B
    requires Has(s.map_, s.map_[h].code, p1 / B % TWO_32) && s1 == WriteStep(s, h, p1, a, B)
    ensures WriteStep(s1, h, p2, b, B) == WriteStep(s, h, p1, a + b, B)
  {
    var k := Find(s.map_, s.map_[h].code, p1 / B % TWO_32);
    var o := Some(s.blocks[k]);
    var v := Merged(o, p1 % B, a, B);
    MergedTwice(o, p1 % B, a, b, B);
    StepFound(s, h, p1, k, a, v, B);
    BlocksOnly(s, k, v, B);
    StepFound(s1, h, p2, k, b, Merged(o, p1 % B, a + b, B), B);
    StepFound(s, h, p1, k, a + b, Merged(o, p1 % B, a + b, B), B);
    assert s.blocks[k := v][k := Merged(o, p1 % B, a + b, B)] == s.blocks[k := Merged(o, p1 % B, a + b, B)];
  }

  /** Two steps in one block that the first one adds. */
  lemma MergeTaken(s: Store, h: nat, p1: nat, p2: nat, a: seq<byte>, b: seq<byte>, s1: Store, B: nat)
    requires Valid(s, B) && Valid(s1, B) && LiveHead(s.map_, h) && LiveHead(s1.map_, h) && s1.map_[h] == s.map_[h]
    requires p1 / B == p2 / B >= 1 && p2 % B == p1 % B + |a| && p2 % B + |b| <= B
    requires !Has(s.map_, s.map_[h].code, p1 / B % TWO_32) && s1 == WriteStep(s, h, p1, a, B)
    requires Has(s1.map_, s.map_[h].code, p1 / B % TWO_32)
    ensures WriteStep(s1, h, p2, b, B) == WriteStep(s, h, p1, a + b, B)
  {
    var f, x := FreeFrom(s.map_, s.hint), p1 / B % TWO_32;
    if f == |s.map_| {
      StepFails(s, h, p1, a, B);
      assert false;
    } else {
      var v, w := Merged(None, p1 % B, a, B), Merged(None, p1 % B, a + b, B);
      MergedTwice(None, p1 % B, a, b, B);
      StepTaken(s, h, p1, f, a, v, B);
      StepTaken(s, h, p1, f, a + b, w, B);
      PlaceFind(s.map_, f, NextSlot(s.map_, h), s.map_[h].code, x);
      StepFound(s1, h, p2, f, b, w, B);
      assert s.blocks[f := v][f := w] == s.blocks[f := w];
    }
  }

  /** Two steps in a block that cannot be added. */
  lemma MergeFull(s: Store, h: nat, p1: nat, p2: nat, a: seq<byte>, b: seq<byte>, s1: Store, B: nat)
    requires Valid(s, B) && LiveHead(s.map_, h) && p1 / B == p2 / B >= 1
    requires p2 % B == p1 % B + |a| && p2 % B + |b| <= B
    requires !Has(s.map_, s.map_[h].code, p1 / B % TWO_32) && FreeCount(s.map_, 0) == 0
    requires s1 == WriteStep(s, h, p1, a, B)
    ensures WriteStep(s1, h, p2, b, B) == WriteStep(s, h, p1, a + b, B)
  {
    NoneFree(s.map_, s.hint);
    NoneFree(s.map_, 0);
    StepFails(s, h, p1, a, B);
    StepFails(s, h, p1, a + b, B);
    StepFails(s1, h, p2, b, B);
  }

  /** Two steps in one block are one, if the first finds or adds the block or there is no free slot at all. */
  lemma Merge(s: Store, h: nat, p1: nat, p2: nat, a: seq<byte>, b: seq<byte>, s1: Store, B: nat)
    requires Valid(s, B) && LiveHead(s.map_, h) && p1 / B == p2 / B >= 1
    requires p2 % B == p1 % B + |a| && p2 % B + |b| <= B && s1 == WriteStep(s, h, p1, a, B)
    requires Has(s1.map_, s.map_[h].code, p1 / B % TWO_32) || FreeCount(s.map_, 0) == 0
    ensures WriteStep(s1, h, p2, b, B) == WriteStep(s, h, p1, a + b, B)
  {
    if Has(s.map_, s.map_[h].code, p1 / B % TWO_32) {
      MergeFound(s, h, p1, p2, a, b, s1, B);
    } else if Has(s1.map_, s.map_[h].code, p1 / B % TWO_32) {
      var r, n := StepAny(s, h, p1, a, B);
      MergeTaken(s, h, p1, p2, a, b, s1, B);
    } else {
      MergeFull(s, h, p1, p2, a, b, s1, B);
    }
  }
}
