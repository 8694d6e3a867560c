/** The filesystem's own write-and-read-back test (__ftest of frat.c), and what its verdict is worth. */
module SelfTest {
  import opened Arith
  import opened ClusterMap
  import opened FileStore
  import opened Write
  import opened Limits
  import opened Files
  import opened Stream
  import opened Handles

  /** Write one block at the start, read one block back, compare; a read that is refused counts as a pass. */
  ghost function Verdict(st: Store, h: nat, block: seq<byte>, t0: Clock, t1: Clock, B: nat): bool
    requires Valid(st, B) && LiveHead(st.map_, h) && META_SIZE <= B && 2 * B < TWO_64
    requires |block| == B && Ticks(t0) && Ticks(t1)
  {
    var o := WriteFile(st, h, Seek(0, B), block, t0, B);
    WriteLength(st, h, block, t0, B);
    var r := ReadFile(o.store, h, Seek(0, B), B, t1, B);
    r.count == 0 || r.data == block
  }

  lemma WriteLength(st: Store, h: nat, block: seq<byte>, t0: Clock, B: nat)
    requires Shaped(st, B) && h < |st.map_| && META_SIZE <= B < TWO_64 && Ticks(t0)
    ensures var o := WriteFile(st, h, Seek(0, B), block, t0, B);
      Shaped(o.store, B) && |o.store.map_| == |st.map_|
  {
  }

  /** Is the block the file's first one? */
  ghost predicate Holds(st: Store, c: Fcode, block: seq<byte>, B: nat)
    requires Valid(st, B) && c != NO_FILE
  {
    |Contents(st, c, B)| >= |block| && Contents(st, c, B)[..|block|] == block
  }

  lemma FirstBlockArith(t: nat, B: nat)
    requires B > 0
    ensures B / B == 1 && LastBlock(B, B, B) == 1 && Missing(t, 1) == (if t == 0 then 1 else 0)
    ensures B <= t * B <==> t >= 1
  {
    DivIs(B, B, 1, 0);
    DivIs(B + B - 1, B, 1, B - 1);
    if t >= 1 {
      MulMono(1, t, B);
    }
  }

  /** A write that finds room stores the block and reads it back. */
  lemma TestStores(st: Store, h: nat, block: seq<byte>, t0: Clock, t1: Clock, B: nat)
    requires Valid(st, B) && LiveHead(st.map_, h) && META_SIZE <= B && 2 * B < TWO_64
    requires |block| == B && Ticks(t0) && Ticks(t1)
    requires !Flag(st.map_[h].attrs, READ_ONLY)
    requires Tails(st.map_, st.map_[h].code) >= 1 || FreeCount(st.map_, st.hint) > 0
    ensures Verdict(st, h, block, t0, t1, B)
    ensures var r := WriteFile(st, h, B, block, t0, B).store; Valid(r, B) && Holds(r, st.map_[h].code, block, B)
  {
    FirstBlockArith(Tails(st.map_, st.map_[h].code), B);
    assert Accepted(st, h, Seek(0, B), block, B);
    WriteThenRead(st, h, 0, block, t0, t1, B);
    WriteOverwrites(st, h, B, block, t0, B);
    PatchSlice(Contents(st, st.map_[h].code, B), 0, block, B);
  }

  /** Reading one block from the start of a state. */
  lemma TestReads(st: Store, h: nat, t1: Clock, o: Outcome, B: nat)
    requires Valid(st, B) && LiveHead(st.map_, h) && META_SIZE <= B && 2 * B < TWO_64 && Ticks(t1)
    requires o == ReadFile(st, h, B, B, t1, B)
    ensures o.count == 0 <==> Tails(st.map_, st.map_[h].code) == 0
    ensures o.count != 0 ==> |Contents(st, st.map_[h].code, B)| >= B && o.data == Contents(st, st.map_[h].code, B)[..B]
  {
    FirstBlockArith(Tails(st.map_, st.map_[h].code), B);
    ReadExactly(st, h, B, B, t1, B);
  }

  /** A write into an empty file that finds no slot leaves it empty. */
  lemma TestLost(st: Store, h: nat, block: seq<byte>, t0: Clock, r: Store, B: nat)
    requires Valid(st, B) && LiveHead(st.map_, h) && META_SIZE <= B && 2 * B < TWO_64 && |block| == B && Ticks(t0)
    requires !Flag(st.map_[h].attrs, READ_ONLY) && r == WriteFile(st, h, B, block, t0, B).store
    requires Tails(st.map_, st.map_[h].code) == 0 && FreeCount(st.map_, st.hint) == 0
    ensures Valid(r, B) && LiveHead(r.map_, h) && r.map_[h] == st.map_[h] && Tails(r.map_, st.map_[h].code) == 0
  {
    var c := st.map_[h].code;
    var st1 := StampHead(st, h, t0, true, B);
    StampKeeps(st, h, t0, true, c, B);
    FirstBlockArith(0, B);
    assert LoopEnds(st1, h, B, block, B, r);
    LoopSound(st1, r, h, B, block, B);
    LoopRunsOut(st1, r, h, c, B, block, B);
  }

  /** The test fails exactly on a read-only file whose first block is another one. A writable file
      passes in every case, also when the volume is full, the file empty and nothing was stored. */
  lemma VerdictExactly(st: Store, h: nat, block: seq<byte>, t0: Clock, t1: Clock, B: nat)
    requires Valid(st, B) && LiveHead(st.map_, h) && META_SIZE <= B && 2 * B < TWO_64
    requires |block| == B && Ticks(t0) && Ticks(t1)
    ensures var c := st.map_[h].code;
      Verdict(st, h, block, t0, t1, B) <==>
      !Flag(st.map_[h].attrs, READ_ONLY) || Tails(st.map_, c) == 0 || Holds(st, c, block, B)
  {
    var c, r := st.map_[h].code, WriteFile(st, h, B, block, t0, B).store;
    WriteLength(st, h, block, t0, B);
    if Flag(st.map_[h].attrs, READ_ONLY) {
      StampKeeps(st, h, t0, true, c, B);
      TestReads(r, h, t1, ReadFile(r, h, B, B, t1, B), B);
    } else if Tails(st.map_, c) == 0 && FreeCount(st.map_, st.hint) == 0 {
      TestLost(st, h, block, t0, r, B);
      TestReads(r, h, t1, ReadFile(r, h, B, B, t1, B), B);
    } else {
      TestStores(st, h, block, t0, t1, B);
    }
  }

  /** An empty file does not hold a block. */
  lemma EmptyHoldsNone(st: Store, c: Fcode, block: seq<byte>, B: nat)
    requires Valid(st, B) && c != NO_FILE && Tails(st.map_, c) == 0 && |block| > 0
    ensures !Holds(st, c, block, B)
  {
    FlatLength(FileBlocks(st, c, B), B);
  }

  /** The verdict is right, a pass meaning that the file starts with the block afterwards and a failure that
      it does not, in all cases but one: nothing could be stored in an empty file, because it is read-only
      or because no slot at or above the hint is free. The test then passes. */
  lemma VerdictTrueExactly(st: Store, h: nat, block: seq<byte>, t0: Clock, t1: Clock, r: Store, B: nat)
    requires Valid(st, B) && LiveHead(st.map_, h) && META_SIZE <= B && 2 * B < TWO_64
    requires |block| == B && Ticks(t0) && Ticks(t1) && r == WriteFile(st, h, B, block, t0, B).store
    ensures Valid(r, B)
    ensures var c := st.map_[h].code;
      (Verdict(st, h, block, t0, t1, B) <==> Holds(r, c, block, B)) <==>
      !(Tails(st.map_, c) == 0 && (Flag(st.map_[h].attrs, READ_ONLY) || FreeCount(st.map_, st.hint) == 0))
  {
    var c := st.map_[h].code;
    VerdictExactly(st, h, block, t0, t1, B);
    if Flag(st.map_[h].attrs, READ_ONLY) {
      StampKeeps(st, h, t0, true, c, B);
      if Tails(st.map_, c) == 0 {
        EmptyHoldsNone(r, c, block, B);
      }
    } else if Tails(st.map_, c) == 0 && FreeCount(st.map_, st.hint) == 0 {
      TestLost(st, h, block, t0, r, B);
      EmptyHoldsNone(r, c, block, B);
    } else {
      TestStores(st, h, block, t0, t1, B);
    }
  }

  // ---------------------------------------------------------------- the test as it runs

  /** The verdict, from the outcomes of the two calls. */
  lemma Judged(st: Store, h: nat, block: seq<byte>, t0: Clock, t1: Clock, o: Outcome, r: Outcome, B: nat)
    requires Valid(st, B) && LiveHead(st.map_, h) && META_SIZE <= B && 2 * B < TWO_64
    requires |block| == B && Ticks(t0) && Ticks(t1)
    requires o == WriteFile(st, h, Seek(0, B), block, t0, B) && Valid(o.store, B) && LiveHead(o.store.map_, h)
    requires r == ReadFile(o.store, h, Seek(0, B), B, t1, B)
    ensures Verdict(st, h, block, t0, t1, B) == (r.count == 0 || r.data == block)
    ensures r.count != 0 ==> |r.data| == |block|
  {
    TestReads(o.store, h, t1, r, B);
  }

  /** The comparison loop. */
  method Same(a: seq<byte>, b: seq<byte>) returns (ok: bool)
    requires |a| == |b|
    ensures ok == (a == b)
  {
    ok := true;
    var i := 0;
    while i < |a|
      invariant i <= |a| && ok == (a[..i] == b[..i])
    {
      assert a[..i + 1] == a[..i] + [a[i]] && b[..i + 1] == b[..i] + [b[i]];
      if a[i] != b[i] {
        ok := false;
      }
      i := i + 1;
    }
    assert a[..i] == a && b[..i] == b;
  }

  /** __ftest, with the random block as a parameter. */
  method Test(handle: Handle, block: seq<byte>, t0: Clock, t1: Clock) returns (ok: bool)
    requires handle.Valid() && |block| == handle.vol.geo.blockSize && Ticks(t0) && Ticks(t1)
    modifies handle, handle.vol, handle.vol.slots, handle.vol.disk
    ensures ok == Verdict(old(handle.vol.State()), handle.file, block, t0, t1, handle.vol.geo.blockSize)
  {
    ghost var st, h, B := handle.vol.State(), handle.file, handle.vol.geo.blockSize;
    handle.SeekTo(0);
    var n := handle.Write(block, t0);
    ghost var o := WriteFile(st, h, Seek(0, B), block, t0, B);
    handle.SeekTo(0);
    var count, data := handle.Read(|block|, t1);
    Judged(st, h, block, t0, t1, o, Outcome(handle.vol.State(), handle.progress, count, data), B);
    ok := true;
    if count != 0 {
      ok := Same(block, data);
    }
  }
}
