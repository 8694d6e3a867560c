/** States at which the code does not do what it reports. */
module Failures {
  import opened Arith
  import opened ClusterMap
  import opened FileStore
  import opened Limits
  import opened Files
  import opened Stream
  import opened Chunks
  import opened Split
  import opened SelfTest
  import Lifecycle
  import Runs

  const FILE: Fcode := Fcode(1, 1)
  const OTHER: Fcode := Fcode(2, 2)
  const NOON: Clock := Clock(Zeros(8), Zeros(8))
  const SEVENS: seq<byte> := seq(512, _ => 7)

  function Head(c: Fcode): Slot { Slot(c, METADATA, 0) }

  /** A head in slot k of a map without that file. */
  lemma HeadPlaced(m: Slots, k: nat, c: Fcode)
    requires Inv(m) && k < |m| && Free(m[k]) && c != NO_FILE && Fits(c) && !Has(m, c, 0)
    ensures Inv(m[k := Head(c)])
  {
    PlaceInv(m, k, Head(c));
  }

  /** A volume of one slot, which an empty file takes up. */
  const FULL: Store := Store([Head(FILE)], 0, [Zeros(512)])

  lemma FullIsOpen()
    ensures Open(FULL, 0, 512, 512) && Tails(FULL.map_, FILE) == 0 && FreeCount(FULL.map_, 0) == 0
  {
    EmptyInv(1);
    HeadPlaced(Empty(1), 0, FILE);
    assert Empty(1)[0 := Head(FILE)] == FULL.map_;
    assert FULL.map_[..0] == [];
    assert FreeCount(FULL.map_, 1) == 0;
  }

  /** A write that is reported in full and lost: 512 bytes into the only file of a full volume. */
  lemma WriteLost()
    ensures Open(FULL, 0, 512, 512)
    ensures var o := WriteFile(FULL, 0, 512, SEVENS, NOON, 512);
      o.count == 512 && Valid(o.store, 512) && Contents(o.store, FILE, 512) == []
  {
    FullIsOpen();
    var o := WriteFile(FULL, 0, 512, SEVENS, NOON, 512);
    WriteReports(FULL, 0, 512, SEVENS, NOON, o, 512);
    TestLost(FULL, 0, SEVENS, NOON, o.store, 512);
  }

  /** A write that destroys the file's metadata: block 2^32 is taken for block 0. */
  lemma HeadClobbered()
    ensures Open(FULL, 0, TWO_32 * 512, 512)
    ensures WriteFile(FULL, 0, TWO_32 * 512, SEVENS, NOON, 512).store.blocks[0] == SEVENS
  {
    FullIsOpen();
    var st := StampHead(FULL, 0, NOON, true, 512);
    StampKeeps(FULL, 0, NOON, true, FILE, 512);
    HeadAliased(st, 0, TWO_32, SEVENS, 512);
    OneChunk(st, 0, TWO_32 * 512, SEVENS, 512);
    assert WriteStep(st, 0, TWO_32 * 512, SEVENS, 512) == Push(st, 0, TWO_32, SEVENS, 512);
  }

  /** A write within one block is one chunk. */
  lemma OneChunk(st: Store, h: nat, pos: nat, d: seq<byte>, B: nat)
    requires Shaped(st, B) && h < |st.map_| && d != [] && pos + |d| < TWO_64 && pos % B + |d| <= B
    ensures WriteLoop(st, h, pos, d, B) == WriteStep(st, h, pos, d, B)
  {
    assert d == d + [];
    var r := WriteStep(st, h, pos, d, B);
    LoopOnce(st, h, pos, d, [], d, pos + |d|, r, r, B);
  }

  /** An empty file and a free slot. */
  const SPARE: Store := Store([Head(FILE), BLANK], 0, [Zeros(512), Zeros(512)])

  lemma SpareIsOpen()
    ensures Open(SPARE, 0, 1024, 512) && Tails(SPARE.map_, FILE) == 0
  {
    EmptyInv(2);
    HeadPlaced(Empty(2), 0, FILE);
    var m := SPARE.map_;
    assert Empty(2)[0 := Head(FILE)] == m;
    AllFreeNoTails(Empty(2), FILE);
    CountUpdate(Empty(2), 0, Head(FILE), FILE);
  }

  /** A write that is reported in full and goes astray: it starts two blocks past the end of the file. */
  lemma WriteAstray()
    ensures Open(SPARE, 0, 1024, 512)
    ensures var o := WriteFile(SPARE, 0, 1024, SEVENS, NOON, 512);
      && o.count == 512 && Valid(o.store, 512)
      && Contents(o.store, FILE, 512) != Patch(Contents(SPARE, FILE, 512), 512, SEVENS, 512)
  {
    SpareIsOpen();
    WriteReports(SPARE, 0, 1024, SEVENS, NOON, WriteFile(SPARE, 0, 1024, SEVENS, NOON, 512), 512);
  }

  /** Two files fill a volume of two slots; the hint is at the second one. */
  const PAIR: Store := Store([Head(FILE), Head(OTHER)], 1, [Zeros(512), Zeros(512)])

  const WORLD: Runs.World := Runs.World(p => if p == "a" then FILE else OTHER, p => 0, p => Zeros(META_SIZE))

  lemma PairIsValid()
    ensures Valid(PAIR, 512) && Has(PAIR.map_, FILE, 0) && Runs.Sensible(WORLD, 512)
  {
    EmptyInv(2);
    HeadPlaced(Empty(2), 0, FILE);
    var m := Empty(2)[0 := Head(FILE)];
    assert m[1] == BLANK && !Has(m, OTHER, 0);
    HeadPlaced(m, 1, OTHER);
    assert m[1 := Head(OTHER)] == PAIR.map_;
  }

  /** A forced re-creation that loses the file. */
  lemma ReplaceLoses()
    ensures Valid(PAIR, 512) && Has(PAIR.map_, FILE, 0) && Runs.Sensible(WORLD, 512)
    ensures var flags := Runs.Flags(false, false, false, true);
      !Has(Runs.Create(PAIR, "a", flags, WORLD, 512).map_, FILE, 0)
  {
    PairIsValid();
    Runs.ReplaceExactly(PAIR, "a", Runs.Flags(false, false, false, true), WORLD, 512);
  }

  /** The self-test passes although nothing was stored. */
  lemma TestDeceived()
    ensures Open(FULL, 0, 512, 512) && Verdict(FULL, 0, SEVENS, NOON, NOON, 512)
    ensures var r := WriteFile(FULL, 0, 512, SEVENS, NOON, 512).store;
      Valid(r, 512) && !Holds(r, FILE, SEVENS, 512)
  {
    WriteLost();
    VerdictExactly(FULL, 0, SEVENS, NOON, NOON, 512);
  }

  /** An empty read-only file on a volume with a free slot. */
  const LOCKED: Store := Store([Slot(FILE, METADATA | READ_ONLY, 0), BLANK], 0, [Zeros(512), Zeros(512)])

  lemma LockedIsValid()
    ensures Valid(LOCKED, 512) && LiveHead(LOCKED.map_, 0) && Tails(LOCKED.map_, FILE) == 0
    ensures Flag(LOCKED.map_[0].attrs, READ_ONLY)
  {
    var s := Slot(FILE, METADATA | READ_ONLY, 0);
    EmptyInv(2);
    PlaceInv(Empty(2), 0, s);
    assert Empty(2)[0 := s] == LOCKED.map_;
    AllFreeNoTails(Empty(2), FILE);
    CountUpdate(Empty(2), 0, s, FILE);
  }

  /** So it does on a file that refuses every write. */
  lemma TestDeceivedReadOnly()
    ensures Valid(LOCKED, 512) && LiveHead(LOCKED.map_, 0) && Verdict(LOCKED, 0, SEVENS, NOON, NOON, 512)
    ensures var r := WriteFile(LOCKED, 0, 512, SEVENS, NOON, 512).store;
      Valid(r, 512) && !Holds(r, FILE, SEVENS, 512)
  {
    LockedIsValid();
    VerdictExactly(LOCKED, 0, SEVENS, NOON, NOON, 512);
    VerdictTrueExactly(LOCKED, 0, SEVENS, NOON, NOON, WriteFile(LOCKED, 0, 512, SEVENS, NOON, 512).store, 512);
  }

  /** A file that was asked for without flags and refuses every write: its slot was freed by removing a
      read-only file. */
  lemma ReadOnlyInherited(st0: Store, r: Store)
    requires st0 == Runs.RemoveHead(LOCKED, FILE)
    requires Valid(st0, 512) && Runs.Sensible(WORLD, 512) ==>
      r == Runs.Create(st0, "b", Runs.Flags(false, false, false, false), WORLD, 512)
    ensures |r.map_| == 2 && r.map_[0].code == OTHER && r.map_[0].index == 0
    ensures Shaped(r, 512) && WriteFile(r, 0, 512, SEVENS, NOON, 512).count == 0
  {
    hide Runs.Create, WriteFile;
    var f := Runs.Flags(false, false, false, false);
    LockedIsValid();
    WorldIsSensible();
    Runs.RemoveHeadInv(LOCKED, FILE, 512);
    Lifecycle.HeadRemoved(LOCKED, FILE, st0);
    assert !Has(st0.map_, OTHER, 0);
    assert Lifecycle.FirstVacant(st0.map_, st0.hint, OTHER, 0);
    Lifecycle.Created(st0, "b", f, WORLD, 0, r, 512);
    Lifecycle.CreatedWritable(st0, "b", f, WORLD, 0, r, 512, SEVENS, NOON, 512);
    LockedBit();
  }

  lemma WorldIsSensible()
    ensures Runs.Sensible(WORLD, 512) && WORLD.hash("b") == OTHER
  {
  }

  lemma LockedBit()
    ensures Lifecycle.Bit(LOCKED.map_[0].attrs, 0x02)
  {
  }

  /** An empty file whose only free slot lies below the hint. */
  const BEHIND: Store := Store([BLANK, Head(FILE)], 1, [Zeros(512), Zeros(512)])

  const HALF: seq<byte> := seq(256, _ => 7)

  lemma BehindIsOpen()
    ensures Open(BEHIND, 1, 512, 512) && Tails(BEHIND.map_, FILE) == 0 && !Has(BEHIND.map_, FILE, 1)
  {
    EmptyInv(2);
    HeadPlaced(Empty(2), 1, FILE);
    assert Empty(2)[1 := Head(FILE)] == BEHIND.map_;
    AllFreeNoTails(Empty(2), FILE);
    CountUpdate(Empty(2), 1, Head(FILE), FILE);
  }

  /** Two writes of half a block against one of the block. The first one finds no slot and resets the hint,
      and the second one takes slot 0; the one write takes none. */
  lemma WritesApart(oa: Outcome, ob: Outcome, o: Outcome)
    requires ThreeWrites(BEHIND, 1, 512, HALF, HALF, NOON, NOON, NOON, oa, ob, o, 512)
    ensures Tails(ob.store.map_, FILE) == 1 && Tails(o.store.map_, FILE) == 0 && !Joined(oa, ob, o, 1)
  {
    BehindIsOpen();
    var ra, rb, r := WritesAsLoops(BEHIND, 1, 512, HALF, HALF, NOON, NOON, NOON, oa, ob, o, 512);
    OneChunk(BEHIND, 1, 512, HALF, 512);
    StepFails(BEHIND, 1, 512, HALF, 512);
    assert ra == BEHIND.(hint := 0);
    OneChunk(BEHIND, 1, 512, HALF + HALF, 512);
    StepFails(BEHIND, 1, 512, HALF + HALF, 512);
    OneChunk(ra, 1, 768, HALF, 512);
    StepTaken(ra, 1, 768, 0, HALF, Merged(None, 256, HALF, 512), 512);
    NextSlotExtends(BEHIND.map_, 1, 0);
  }

  /** A write of one byte at the last position takes the cursor back to 0. */
  lemma CursorInMetadata()
    ensures Open(FULL, 0, TWO_64 - 1, 512)
    ensures WriteFile(FULL, 0, TWO_64 - 1, [7], NOON, 512).cursor == 0
  {
    FullIsOpen();
  }

  /** A read of a block from there returns the metadata as if it were data. */
  lemma MetadataRead()
    ensures Valid(FULL, 512) && LiveHead(FULL.map_, 0)
    ensures ReadFile(FULL, 0, 0, 512, NOON, 512).count == 512
    ensures ReadFile(FULL, 0, 0, 512, NOON, 512).data == Stamped(FULL.blocks[0], NOON, false)
  {
    FullIsOpen();
    var b := Stamped(FULL.blocks[0], NOON, false);
    ReadFromMetadata(FULL, 0, 0, 512, NOON, ReadFile(FULL, 0, 0, 512, NOON, 512), 512);
    var all := b + Contents(FULL, FILE, 512);
    assert all[0..512] == b;
  }

  /** A file of one data block. */
  const BLOCK: Store := Store([Head(FILE), Slot(FILE, 0, 1)], 0, [Zeros(512), Zeros(512)])

  lemma BlockIsOpen()
    ensures Open(BLOCK, 0, 512, 512) && SizeOf(BLOCK, 0, 512) == 512
  {
    SpareIsOpen();
    var m, s := SPARE.map_, Slot(FILE, 0, 1);
    assert m[1] == BLANK && !Has(m, FILE, 1);
    PlaceInv(m, 1, s);
    CountUpdate(m, 1, s, FILE);
    assert m[1 := s] == BLOCK.map_;
  }

  /** Two reads, of a block and of one byte more, against one read of both: the one returns nothing. */
  lemma ReadsApart(r0: Outcome, r1: Outcome, r: Outcome)
    requires r0 == ReadFile(BLOCK, 0, 512, 512, NOON, 512)
    requires Shaped(r0.store, 512) && 0 < |r0.store.map_| ==> r1 == ReadFile(r0.store, 0, r0.cursor, 1, NOON, 512)
    requires r == ReadFile(BLOCK, 0, 512, 513, NOON, 512)
    ensures r0.count == 512 && r.count == 0 && !Together(r0, r1, r)
  {
    BlockIsOpen();
    ReadExactly(BLOCK, 0, 512, 512, NOON, 512);
    ReadExactly(BLOCK, 0, 512, 513, NOON, 512);
    ReadSplit(BLOCK, 0, 512, 512, 1, NOON, NOON, NOON, r0, r1, r, 512);
  }
}
