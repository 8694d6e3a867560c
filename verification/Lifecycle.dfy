/** What removal leaves in the map, what creation makes of a freed slot, and what a directory gains. */
module Lifecycle {
  import opened Arith
  import opened ClusterMap
  import opened FileStore
  import opened Files
  import opened Stream
  import opened Runs

  // ---------------------------------------------------------------- removal, field by field

  /** Removing a head clears the code of that one slot. Its attributes and its index stay, and so does
      everything else. */
  lemma HeadRemoved(st: Store, c: Fcode, r: Store)
    requires Unique(st.map_) && c != NO_FILE && r == RemoveHead(st, c)
    ensures |r.map_| == |st.map_| && r.hint == st.hint && r.blocks == st.blocks
    ensures forall k :: 0 <= k < |st.map_| ==>
      && r.map_[k].attrs == st.map_[k].attrs && r.map_[k].index == st.map_[k].index
      && r.map_[k].code == if st.map_[k].code == c && st.map_[k].index == 0 then Fcode(0, 0) else st.map_[k].code
  {
    forall k | 0 <= k < |st.map_| && Is(st.map_[k], c, 0)
      ensures k == Find(st.map_, c, 0)
    {
      FindUnique(st.map_, c, 0, k);
    }
  }

  /** Removing a family clears the code of every one of its slots, and nothing else. */
  lemma FamilyRemoved(st: Store, c: Fcode, r: Store)
    requires r == RemoveFamily(st, c)
    ensures |r.map_| == |st.map_| && r.hint == st.hint && r.blocks == st.blocks
    ensures forall k :: 0 <= k < |st.map_| ==>
      && r.map_[k].attrs == st.map_[k].attrs && r.map_[k].index == st.map_[k].index
      && r.map_[k].code == if st.map_[k].code == c then Fcode(0, 0) else st.map_[k].code
  {
  }

  // ---------------------------------------------------------------- creation, field by field

  /** A slot that creation of c may take: free, or the head it is told to replace. */
  predicate Vacant(s: Slot, c: Fcode) { s.code == Fcode(0, 0) || (s.code == c && s.index == 0) }

  /** The first such slot at or above the hint. */
  ghost predicate FirstVacant(m: Slots, hint: nat, c: Fcode, f: nat)
  {
    hint <= f < |m| && Vacant(m[f], c) && forall j :: hint <= j < f ==> !Vacant(m[j], c)
  }

  predicate Bit(a: bv16, bit: bv16) { a & bit == bit }

  /** Of the attributes, those that are no flag of a head stay, and no flag is lost. */
  predicate Kept(a: bv16, a': bv16) { a' & 0xFFF0 == a & 0xFFF0 && a & a' == a }

  /** Attributes a' of a new head against a of the slot before: the flags asked for are added to it. */
  predicate Inherits(a: bv16, a': bv16, f: Flags)
  {
    && Bit(a', 0x04)
    && (Bit(a', 0x01) <==> Bit(a, 0x01) || (f.directory && !f.proxy))
    && (Bit(a', 0x02) <==> Bit(a, 0x02) || (f.readOnly && !f.proxy))
    && (Bit(a', 0x08) <==> Bit(a, 0x08) || f.proxy)
    && Kept(a, a')
  }

  /** What flagcheck tests, as bits. */
  lemma FlagValues(a: bv16)
    ensures (Flag(a, DIRECTORY) <==> Bit(a, 0x01)) && (Flag(a, READ_ONLY) <==> Bit(a, 0x02))
    ensures (Flag(a, METADATA) <==> Bit(a, 0x04)) && (Flag(a, PROXY) <==> Bit(a, 0x08))
    ensures Flag(a, EXTENSION) <==> Bit(a, 0x10)
  {
  }

  /** The flags asked for, as bits. */
  function FlagBits(f: Flags): bv16
  {
    if f.proxy then 0x0C
    else if f.directory then if f.readOnly then 0x07 else 0x05
    else if f.readOnly then 0x06 else 0x04
  }

  lemma OrAssoc(a: bv16, x: bv16, y: bv16)
    ensures (a | x) | y == a | (x | y)
  {
  }

  lemma HeadBits(a: bv16, f: Flags)
    ensures HeadAttrs(a, f) == a | FlagBits(f)
  {
    if f.proxy {
      OrAssoc(a, 0x08, 0x04);
    } else {
      var d, r: bv16 := if f.directory then 0x01 else 0, if f.readOnly then 0x02 else 0;
      OrAssoc(a, d, r);
      OrAssoc(a, d | r, 0x04);
    }
  }

  /** A flag of a union. */
  lemma OrBit(a: bv16, b: bv16, bit: bv16)
    requires bit in {0x01, 0x02, 0x04, 0x08}
    ensures Bit(a | b, bit) <==> Bit(a, bit) || Bit(b, bit)
  {
  }

  lemma OrMask(a: bv16, b: bv16, mask: bv16)
    ensures (a | b) & mask == (a & mask) | (b & mask)
  {
  }

  lemma OrAbsorb(a: bv16, b: bv16)
    ensures a & (a | b) == a
  {
  }

  lemma OrNothing(a: bv16)
    ensures a | 0 == a
  {
  }

  lemma OrKept(a: bv16, b: bv16, m: bv16)
    requires m == 0xFFF0 && b & m == 0
    ensures Kept(a, a | b)
  {
    OrMask(a, b, m);
    OrNothing(a & m);
    OrAbsorb(a, b);
  }

  lemma FlagBitsAre(f: Flags, b: bv16)
    requires b == FlagBits(f)
    ensures b & 0xFFF0 == 0 && Bit(b, 0x04) && (Bit(b, 0x08) <==> f.proxy)
    ensures Bit(b, 0x01) <==> f.directory && !f.proxy
    ensures Bit(b, 0x02) <==> f.readOnly && !f.proxy
  {
  }

  lemma HeadAttrsInherit(a: bv16, f: Flags)
    ensures Inherits(a, HeadAttrs(a, f), f)
  {
    hide HeadAttrs, Bit, Kept, FlagBits;
    var b := FlagBits(f);
    HeadBits(a, f);
    FlagBitsAre(f, b);
    OrBit(a, b, 0x01);
    OrBit(a, b, 0x02);
    OrBit(a, b, 0x04);
    OrBit(a, b, 0x08);
    OrKept(a, b, 0xFFF0);
  }

  lemma VacantIs(st: Store, c: Fcode, f: nat)
    requires Unique(st.map_) && c != NO_FILE
    ensures var st0 := RemoveHead(st, c);
      f < |st.map_| ==>
        && (FirstVacant(st.map_, st.hint, c, f) <==> FreeFrom(st0.map_, st0.hint) == f)
        && st0.map_[f].attrs == st.map_[f].attrs
    ensures (forall j :: st.hint <= j < |st.map_| ==> !Vacant(st.map_[j], c))
            <==> FreeFrom(RemoveHead(st, c).map_, st.hint) == |st.map_|
  {
    var st0 := RemoveHead(st, c);
    HeadRemoved(st, c, st0);
    assert forall j :: 0 <= j < |st.map_| ==> (Vacant(st.map_[j], c) <==> Free(st0.map_[j]));
    AllocateExactly(st0.map_, st0.hint);
    var e := FreeFrom(st0.map_, st0.hint);
    if FirstVacant(st.map_, st.hint, c, f) {
      assert Free(st0.map_[f]);
      assert e <= f;
    }
  }

  /** The new head, in the first vacant slot at or above the hint: it carries the flags asked for and all
      that were left in the slot, and its block is the metadata record. */
  lemma Created(st: Store, path: string, flags: Flags, w: World, f: nat, r: Store, B: nat)
    requires Valid(st, B) && Sensible(w, B) && r == Create(st, path, flags, w, B)
    requires !(Has(st.map_, w.hash(path), 0) && !flags.force)
    requires FirstVacant(st.map_, st.hint, w.hash(path), f)
    ensures |r.map_| == |st.map_| && f < |r.blocks|
    ensures r.map_[f].code == w.hash(path) && r.map_[f].index == 0
    ensures Inherits(st.map_[f].attrs, r.map_[f].attrs, flags)
    ensures r.blocks[f][..512] == w.meta(path) && forall i :: 512 <= i < B ==> r.blocks[f][i] == 0
    ensures (forall q :: !Above(q, path)) ==> r.hint == f
    ensures forall k :: 0 <= k < |st.map_| && !Vacant(st.map_[k], w.hash(path)) ==> r.map_[k] == st.map_[k]
  {
    hide Create, Inherits, Inv;
    var c := w.hash(path);
    var st0 := RemoveHead(st, c);
    InvUnique(st.map_);
    VacantIs(st, c, f);
    HeadRemoved(st, c, st0);
    CreateKeeps(st, path, flags, w, B);
    HeadAttrsInherit(st0.map_[f].attrs, flags);
    if forall q :: !Above(q, path) {
      RemoveHeadInv(st, c, B);
      MarkKeeps(st0, f, c, flags, B);
      EnteredNowhere(Mark(st0, f, c, flags), path, w, B);
      HintAfter(st, path, flags, w, st0, f, B);
    }
    forall k | 0 <= k < |st.map_| && !Vacant(st.map_[k], c)
      ensures r.map_[k] == st.map_[k]
    {
      assert At(st0.map_, k);
    }
  }

  lemma HintAfter(st: Store, path: string, flags: Flags, w: World, st0: Store, f: nat, B: nat)
    requires Valid(st, B) && Sensible(w, B) && !(Has(st.map_, w.hash(path), 0) && !flags.force)
    requires st0 == RemoveHead(st, w.hash(path)) && f == FreeFrom(st0.map_, st0.hint) < |st0.map_|
    requires Valid(Mark(st0, f, w.hash(path), flags), B)
    requires Enter(Mark(st0, f, w.hash(path), flags), path, w, B) == Mark(st0, f, w.hash(path), flags)
    ensures Create(st, path, flags, w, B).hint == f
  {
    hide Inv, Enter, HeadAttrs;
  }

  lemma InvUnique(m: Slots)
    requires Inv(m)
    ensures Unique(m)
  {
  }

  /** Without a vacant slot creation only removes the head it was told to replace, and resets the hint. */
  lemma CreatedNothing(st: Store, path: string, flags: Flags, w: World, r: Store, B: nat)
    requires Valid(st, B) && Sensible(w, B) && r == Create(st, path, flags, w, B)
    requires !(Has(st.map_, w.hash(path), 0) && !flags.force)
    requires forall j :: st.hint <= j < |st.map_| ==> !Vacant(st.map_[j], w.hash(path))
    ensures |r.map_| == |st.map_| && r.hint == 0 && r.blocks == st.blocks
    ensures forall k :: 0 <= k < |st.map_| ==>
      && r.map_[k].attrs == st.map_[k].attrs && r.map_[k].index == st.map_[k].index
      && r.map_[k].code == if Is(st.map_[k], w.hash(path), 0) then Fcode(0, 0) else st.map_[k].code
  {
    var c := w.hash(path);
    VacantIs(st, c, 0);
    HeadRemoved(st, c, RemoveHead(st, c));
    CreateKeeps(st, path, flags, w, B);
  }

  /** A write to a new file is accepted exactly when neither its flags nor what was left in its slot make it
      read-only: the slot may have been freed by removing a read-only file. */
  lemma CreatedWritable(st: Store, path: string, flags: Flags, w: World, f: nat, r: Store,
                        cursor: nat, data: seq<byte>, now: Clock, B: nat)
    requires Valid(st, B) && Sensible(w, B) && r == Create(st, path, flags, w, B)
    requires !(Has(st.map_, w.hash(path), 0) && !flags.force)
    requires FirstVacant(st.map_, st.hint, w.hash(path), f) && data != [] && Ticks(now)
    ensures f < |r.map_|
    ensures WriteFile(r, f, cursor, data, now, B).count
            == if Bit(st.map_[f].attrs, 0x02) || (flags.readOnly && !flags.proxy) then 0 else |data|
  {
    hide Create, WriteLoop, StampHead;
    Created(st, path, flags, w, f, r, B);
  }

  /** A head created in the slot of a removed one has every flag the removed one had. */
  lemma FlagsRecycled(st: Store, c: Fcode, k: nat, path: string, flags: Flags, w: World, r: Store, B: nat)
    requires Valid(st, B) && Sensible(w, B) && c != NO_FILE && k < |st.map_| && Is(st.map_[k], c, 0)
    requires st.hint <= k && forall j :: st.hint <= j < k ==> !Free(st.map_[j])
    requires w.hash(path) == c || !Has(st.map_, w.hash(path), 0)
    requires Valid(RemoveHead(st, c), B) ==> r == Create(RemoveHead(st, c), path, flags, w, B)
    ensures |r.map_| == |st.map_| && Is(r.map_[k], w.hash(path), 0)
    ensures Inherits(st.map_[k].attrs, r.map_[k].attrs, flags)
  {
    hide Create, Inv;
    var d, st0 := w.hash(path), RemoveHead(st, c);
    InvUnique(st.map_);
    HeadRemoved(st, c, st0);
    RemoveHeadInv(st, c, B);
    if Has(st0.map_, d, 0) {
      FindAny(st.map_, d, 0, Find(st0.map_, d, 0));
    }
    forall j | st.hint <= j < k
      ensures !Vacant(st0.map_[j], d)
    {
      if Is(st0.map_[j], d, 0) {
        FindAny(st0.map_, d, 0, j);
      }
    }
    assert FirstVacant(st0.map_, st0.hint, d, k);
    Created(st0, path, flags, w, k, r, B);
  }

  // ---------------------------------------------------------------- what a directory gains

  /** The blocks n calls of __faddr add, with a free slots at or above the hint and all in all: the call that
      finds none ahead is lost, and the scan starts over at slot 0. */
  function Gained(a: nat, all: nat, n: nat): nat
    requires a <= all
  {
    if n <= a then n else a + Min(n - a - 1, all - a)
  }

  lemma GainedStep(a: nat, all: nat, n: nat)
    requires a <= all && n > 0
    ensures a > 0 ==> Gained(a, all, n) == 1 + Gained(a - 1, all - 1, n - 1)
    ensures a == 0 ==> Gained(a, all, n) == Gained(all, all, n - 1)
  {
  }

  lemma {:induction false} FreeCountLess(m: Slots, k: nat, j: nat)
    requires k <= j
    ensures FreeCount(m, j) <= FreeCount(m, k)
    decreases j - k
  {
    if k < j {
      FreeCountLess(m, k + 1, j);
    }
  }

  lemma {:induction false} FreeCountFill(m: Slots, k: nat, f: nat, s: Slot)
    requires k <= f < |m| && Free(m[f]) && !Free(s)
    ensures FreeCount(m[f := s], k) == FreeCount(m, k) - 1
    decreases f - k
  {
    if k < f {
      FreeCountFill(m, k + 1, f, s);
    } else {
      FreeCountAbove(m, m[f := s], f + 1);
    }
  }

  /** A data block has the flags of its family's head but the metadata flag. */
  lemma TailAttrs(a: bv16)
    ensures !Bit(Unmarked(a), 0x04) && Unmarked(a) & 0xFFFB == a & 0xFFFB
  {
  }

  /** The slot and the block one call of __faddr takes. */
  lemma Added(st: Store, h: nat, f: nat, r: Store, B: nat)
    requires Valid(st, B) && LiveHead(st.map_, h) && r == AddBlock(st, h, B)
    requires f == FreeFrom(st.map_, st.hint) < |st.map_|
    ensures Appended(st, r, h, f, r.blocks[f]) && forall i :: 0 <= i < B ==> r.blocks[f][i] == 0
    ensures r.hint == f && r.map_[f].code == st.map_[h].code
    ensures r.map_[f].index == Tails(st.map_, st.map_[h].code) + 1
    ensures !Bit(r.map_[f].attrs, 0x04) && r.map_[f].attrs & 0xFFFB == st.map_[h].attrs & 0xFFFB
  {
    hide Bit, Unmarked;
    TailAttrs(st.map_[h].attrs);
    NextSlotExtends(st.map_, h, f);
  }

  /** r is st with n zero blocks more in the file at h; no other file and no other block differs. */
  ghost predicate Longer(st: Store, r: Store, h: nat, n: nat, B: nat)
  {
    && Valid(st, B) && Valid(r, B) && Confined(st, r, h) && r.blocks[h] == st.blocks[h]
    && Contents(r, st.map_[h].code, B) == Contents(st, st.map_[h].code, B) + Zeros(n * B)
  }

  lemma AddedLonger(st: Store, h: nat, r: Store, B: nat)
    requires Valid(st, B) && LiveHead(st.map_, h) && r == AddBlock(st, h, B) && FreeCount(st.map_, st.hint) > 0
    ensures Longer(st, r, h, 1, B) && r.map_[h] == st.map_[h] && |r.map_| == |st.map_|
    ensures FreeCount(r.map_, r.hint) == FreeCount(st.map_, st.hint) - 1
    ensures FreeCount(r.map_, 0) == FreeCount(st.map_, 0) - 1
  {
    hide Inv, Unmarked;
    var c, f, z := st.map_[h].code, FreeFrom(st.map_, st.hint), Zeros(B);
    FreeCountFrom(st.map_, st.hint);
    AppendBlock(st, r, h, f, z, B);
    FillFirst(st.map_, st.hint, NextSlot(st.map_, h));
    FreeCountFill(st.map_, 0, f, NextSlot(st.map_, h));
    FrameHead(st, r, h);
    FlatSnoc(FileBlocks(st, c, B), z);
    assert 1 * B == B;
  }

  lemma FlatSnoc(bs: seq<seq<byte>>, b: seq<byte>)
    ensures Flat(bs + [b]) == Flat(bs) + b
  {
    assert (bs + [b])[..|bs|] == bs;
  }

  lemma LongerTrans(s0: Store, s1: Store, s2: Store, h: nat, a: nat, b: nat, n: nat, B: nat)
    requires Longer(s0, s1, h, a, B) && Longer(s1, s2, h, b, B) && n == a + b && s1.map_[h] == s0.map_[h]
    ensures Longer(s0, s2, h, n, B)
  {
    ConfinedTrans(s0, s1, s2, h);
    ZerosSum(a, b, B);
  }

  lemma ZerosSum(a: nat, b: nat, B: nat)
    ensures Zeros(a * B) + Zeros(b * B) == Zeros((a + b) * B)
  {
    assert a * B + b * B == (a + b) * B;
  }

  lemma LongerNot(st: Store, h: nat, hint: nat, B: nat)
    requires Valid(st, B) && LiveHead(st.map_, h)
    ensures Longer(st, st.(hint := hint), h, 0, B)
  {
    var r := st.(hint := hint);
    assert FileBlocks(r, st.map_[h].code, B) == FileBlocks(st, st.map_[h].code, B);
  }

  /** n calls of __faddr append exactly Gained(..) zero blocks to the file and touch nothing else. */
  lemma {:induction false} Extended(st: Store, h: nat, n: nat, r: Store, B: nat)
    requires Valid(st, B) && LiveHead(st.map_, h) && r == Extend(st, h, n, B)
    ensures FreeCount(st.map_, st.hint) <= FreeCount(st.map_, 0)
    ensures Longer(st, r, h, Gained(FreeCount(st.map_, st.hint), FreeCount(st.map_, 0), n), B)
    decreases n
  {
    hide Longer, FreeCount, Inv, AddBlock, Gained;
    var a, all := FreeCount(st.map_, st.hint), FreeCount(st.map_, 0);
    FreeCountLess(st.map_, 0, st.hint);
    if n == 0 {
      LongerNot(st, h, st.hint, B);
      GainedNone(a, all);
    } else {
      var st1 := AddBlock(st, h, B);
      GainedStep(a, all, n);
      AddBlockKeeps(st, h, B);
      Extended(st1, h, n - 1, r, B);
      if a > 0 {
        AddedLonger(st, h, st1, B);
        LongerTrans(st, st1, r, h, 1, Gained(a - 1, all - 1, n - 1), Gained(a, all, n), B);
      } else {
        AddedNothing(st, h, st1, B);
        LongerNot(st, h, 0, B);
        LongerTrans(st, st1, r, h, 0, Gained(all, all, n - 1), Gained(a, all, n), B);
      }
    }
  }

  lemma GainedNone(a: nat, all: nat)
    requires a <= all
    ensures Gained(a, all, 0) == 0
  {
  }

  lemma AddedNothing(st: Store, h: nat, r: Store, B: nat)
    requires Valid(st, B) && LiveHead(st.map_, h) && r == AddBlock(st, h, B) && FreeCount(st.map_, st.hint) == 0
    ensures r == st.(hint := 0)
  {
    FreeCountFrom(st.map_, st.hint);
  }

  /** Entering a path into its directory, once that exists: a directory whose code differs from the file's in
      both halves is extended by the blocks the entry needs, as far as slots are found; else nothing changes. */
  lemma Entered(st: Store, path: string, up: string, w: World, st1: Store, r: Store, B: nat)
    requires Valid(st, B) && Sensible(w, B) && r == Enter(st, path, w, B)
    requires Above(up, path) && forall q :: Above(q, path) ==> |q| <= |up|
    requires st1 == if Has(st.map_, w.hash(up), 0) then st
                    else Create(st, up, Flags(false, true, false, false), w, B)
    ensures Valid(st1, B)
    ensures var d, c, m := w.hash(up), w.hash(path), st1.map_;
      var h := Find(m, d, 0);
      if h < |m| && Bit(m[h].attrs, 0x01) && d.low != c.low && d.high != c.high then
        && FreeCount(m, st1.hint) <= FreeCount(m, 0)
        && Longer(st1, r, h, Gained(FreeCount(m, st1.hint), FreeCount(m, 0), w.gain(up)), B)
      else r == st1
  {
    hide Create, Inv, Gained, Longer, Extend;
    ParentExactly(path);
    assert Parent(path) == Some(up);
    if !Has(st.map_, w.hash(up), 0) {
      CreateKeeps(st, up, PARENT, w, B);
    }
    var h := Find(st1.map_, w.hash(up), 0);
    if h < |st1.map_| {
      Extended(st1, h, w.gain(up), Extend(st1, h, w.gain(up), B), B);
    }
  }

  /** A path with no directory on the way is entered nowhere. */
  lemma EnteredNowhere(st: Store, path: string, w: World, B: nat)
    requires Valid(st, B) && Sensible(w, B) && forall q :: !Above(q, path)
    ensures Enter(st, path, w, B) == st
  {
    ParentExactly(path);
  }

  // ---------------------------------------------------------------- the last operation of a run

  lemma {:induction false} RunSnoc(st: Store, ops: seq<Op>, op: Op, w: World, B: nat)
    requires Shaped(st, B) && Sensible(w, B)
    ensures Run(st, ops + [op], w, B) == Step(Run(st, ops, w, B), op, w, B)
    decreases |ops|
  {
    var all := ops + [op];
    if ops == [] {
      assert all[1..] == [];
    } else {
      assert all[0] == ops[0] && all[1..] == ops[1..] + [op];
      RunSnoc(Step(st, ops[0], w, B), ops[1..], op, w, B);
    }
  }

  /** What the last operation of a run has done by its end: s is the state before it and r the state after. */
  ghost predicate Done(s: Store, op: Op, r: Store, w: World, B: nat)
    requires Valid(s, B) && Valid(r, B) && Sensible(w, B)
  {
    match op
    case DoCreate(path, flags) => r == Create(s, path, flags, w, B)
    case DoExtend(h) =>
      LiveHead(s.map_, h) ==> Longer(s, r, h, if FreeCount(s.map_, s.hint) > 0 then 1 else 0, B)
    case DoRemoveHead(path) =>
      && !Has(r.map_, w.hash(path), 0)
      && forall c: Fcode, x: nat {:trigger Find(r.map_, c, x)} :: c != NO_FILE && (c, x) != (w.hash(path), 0) ==>
        Find(r.map_, c, x) == Find(s.map_, c, x)
    case DoRemoveFamily(c) =>
      c != NO_FILE ==> forall d: Fcode, x: nat {:trigger Find(r.map_, d, x)} :: d != NO_FILE ==>
        Find(r.map_, d, x) == if d == c then |r.map_| else Find(s.map_, d, x)
    case DoWrite(h, cursor, data, now) =>
      Accepted(s, h, cursor, data, B) && Ticks(now) ==>
        && s.map_[h].code != NO_FILE
        && Contents(r, s.map_[h].code, B) == Patch(Contents(s, s.map_[h].code, B), cursor - B, data, B)
  }

  lemma DoneExtend(s: Store, h: nat, r: Store, B: nat)
    requires Valid(s, B) && LiveHead(s.map_, h) && r == AddBlock(s, h, B)
    ensures Longer(s, r, h, if FreeCount(s.map_, s.hint) > 0 then 1 else 0, B)
  {
    hide Longer, Inv, AddBlock;
    if FreeCount(s.map_, s.hint) > 0 {
      AddedLonger(s, h, r, B);
    } else {
      AddedNothing(s, h, r, B);
      LongerNot(s, h, 0, B);
    }
  }

  lemma DoneRemoveHead(s: Store, c: Fcode, r: Store, d: Fcode, x: nat, B: nat)
    requires Valid(s, B) && c != NO_FILE && r == RemoveHead(s, c) && d != NO_FILE
    ensures (d, x) == (c, 0) ==> Find(r.map_, d, x) == |r.map_|
    ensures (d, x) != (c, 0) ==> Find(r.map_, d, x) == Find(s.map_, d, x)
  {
    InvUnique(s.map_);
    HeadRemoved(s, c, r);
    RemoveHeadInv(s, c, B);
    if (d, x) != (c, 0) {
      FindSame(s.map_, r.map_, d, x);
    }
  }

  lemma DoneRemoveFamily(s: Store, c: Fcode, r: Store, d: Fcode, x: nat)
    requires c != NO_FILE && r == RemoveFamily(s, c) && d != NO_FILE
    ensures Find(r.map_, d, x) == if d == c then |r.map_| else Find(s.map_, d, x)
  {
    FamilyRemoved(s, c, r);
    if d != c {
      FindSame(s.map_, r.map_, d, x);
    }
  }

  lemma DoneRemovals(s: Store, op: Op, r: Store, w: World, B: nat)
    requires Valid(s, B) && Valid(r, B) && Sensible(w, B) && (op.DoRemoveHead? || op.DoRemoveFamily?)
    requires r == Apply(s, op, w, B)
    ensures Done(s, op, r, w, B)
  {
    hide Inv, RemoveHead, RemoveFamily;
    match op
    case DoRemoveHead(path) =>
      var c := w.hash(path);
      DoneRemoveHead(s, c, r, c, 0, B);
      forall d: Fcode, x: nat | d != NO_FILE && (d, x) != (c, 0)
        ensures Find(r.map_, d, x) == Find(s.map_, d, x)
      {
        DoneRemoveHead(s, c, r, d, x, B);
      }
    case DoRemoveFamily(c) =>
      if c != NO_FILE {
        forall d: Fcode, x: nat | d != NO_FILE
          ensures Find(r.map_, d, x) == if d == c then |r.map_| else Find(s.map_, d, x)
        {
          DoneRemoveFamily(s, c, r, d, x);
        }
      }
  }

  lemma DoneWrite(s: Store, op: Op, r: Store, w: World, B: nat)
    requires Valid(s, B) && Valid(r, B) && Sensible(w, B) && op.DoWrite? && Enabled(s, op) && r == Apply(s, op, w, B)
    ensures Done(s, op, r, w, B)
  {
    hide Inv, WriteFile, Accepted, Patch, Contents, Tails;
    if Accepted(s, op.head, op.cursor, op.data, B) {
      WriteOverwrites(s, op.head, op.cursor, op.data, op.now, B);
      AcceptedHead(s, op.head, op.cursor, op.data, B);
    }
  }

  lemma AcceptedHead(s: Store, h: nat, cursor: nat, data: seq<byte>, B: nat)
    requires Accepted(s, h, cursor, data, B)
    ensures LiveHead(s.map_, h)
  {
  }

  /** Each operation of a run takes effect on the state the ones before it left. */
  lemma LastOp(st: Store, ops: seq<Op>, op: Op, w: World, s: Store, r: Store, B: nat)
    requires Valid(st, B) && Sensible(w, B)
    requires s == Run(st, ops, w, B) && r == Run(st, ops + [op], w, B) && Enabled(s, op)
    ensures Valid(s, B) && Valid(r, B) && Done(s, op, r, w, B)
  {
    hide Inv, Longer, Create, WriteFile, AddBlock, RemoveHead, RemoveFamily, Accepted, Patch, Contents;
    RunInv(st, ops, w, B);
    RunInv(st, ops + [op], w, B);
    RunSnoc(st, ops, op, w, B);
    assert r == Apply(s, op, w, B);
    if op.DoExtend? {
      DoneExtend(s, op.head, r, B);
    } else if op.DoWrite? {
      DoneWrite(s, op, r, w, B);
    } else if !op.DoCreate? {
      DoneRemovals(s, op, r, w, B);
    }
  }
}
