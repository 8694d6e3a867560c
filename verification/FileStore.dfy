/** The file operations of frat.c over the cluster map and the data blocks it owns. */
module FileStore {
  import opened Arith
  import opened ClusterMap

  /** The mounted state: the map, the allocation hint, and block k owned by slot k. */
  datatype Store = Store(map_: Slots, hint: nat, blocks: seq<seq<byte>>)

  ghost predicate Shaped(st: Store, B: nat)
  {
    B > 0 && |st.blocks| == |st.map_| && forall k :: 0 <= k < |st.blocks| ==> |st.blocks[k]| == B
  }

  ghost predicate Valid(st: Store, B: nat)
  {
    Shaped(st, B) && Inv(st.map_)
  }

  /** h is the slot a file handle points to. */
  ghost predicate LiveHead(m: Slots, h: nat)
  {
    h < |m| && !Free(m[h]) && m[h].index == 0
  }

  // ---------------------------------------------------------------- the code, as functions

  /** flagunset of the metadata flag */
  function Unmarked(attrs: bv16): bv16 { attrs & !METADATA }

  /** The slot __faddr fills: attributes of the family without the metadata flag, numbered by count. */
  function NextSlot(m: Slots, h: nat): Slot
    requires h < |m|
  {
    Slot(m[h].code, Unmarked(m[h].attrs), Members(m, m[h].code))
  }

  /** __faddr: next-fit allocation, numbering, zeroing. A failed scan resets the hint. */
  function AddBlock(st: Store, h: nat, B: nat): (r: Store)
    requires Shaped(st, B) && h < |st.map_|
    ensures Shaped(r, B) && |r.map_| == |st.map_|
  {
    var f := FreeFrom(st.map_, st.hint);
    if f < |st.map_| then
      Store(st.map_[f := NextSlot(st.map_, h)], f, st.blocks[f := Zeros(B)])
    else
      st.(hint := 0)
  }

  /** __fread1: block ix of the family, the lookup index truncated to 32 bits. */
  function Load(st: Store, h: nat, ix: nat, B: nat): (r: Option<seq<byte>>)
    requires Shaped(st, B) && h < |st.map_|
    ensures r.Some? ==> |r.value| == B
  {
    if ix == st.map_[h].index then Some(st.blocks[h])
    else
      var k := Find(st.map_, st.map_[h].code, ix % TWO_32);
      if k < |st.map_| then Some(st.blocks[k]) else None
  }

  /** __fpush1: overwrite block ix, adding it when absent; the metadata block is protected. */
  function Push(st: Store, h: nat, ix: nat, b: seq<byte>, B: nat): (r: Store)
    requires Shaped(st, B) && h < |st.map_| && |b| == B
    ensures Shaped(r, B) && |r.map_| == |st.map_|
  {
    if ix == st.map_[h].index then
      if Flag(st.map_[h].attrs, METADATA) then st else st.(blocks := st.blocks[h := b])
    else
      var k := Find(st.map_, st.map_[h].code, ix % TWO_32);
      if k < |st.map_| then st.(blocks := st.blocks[k := b])
      else
        var f := FreeFrom(st.map_, st.hint);
        var st1 := AddBlock(st, h, B);
        if f < |st.map_| then st1.(blocks := st1.blocks[f := b]) else st1
  }

  function Chunk(pos: nat, left: nat, B: nat): (c: nat)
    requires B > 0
    ensures c <= left && c <= B - pos % B && (left > 0 ==> c > 0)
  {
    Min(B - pos % B, left)
  }

  /** The block a chunk leaves behind: a whole block as is, a part laid over the old block or zeros. */
  function Merged(old_: Option<seq<byte>>, off: nat, d: seq<byte>, B: nat): (b: seq<byte>)
    requires off + |d| <= B && (old_.Some? ==> |old_.value| == B)
    ensures |b| == B
  {
    if |d| < B then
      var blk := if old_.Some? then old_.value else Zeros(B);
      blk[..off] + d + blk[off + |d|..]
    else d
  }

  function WriteStep(st: Store, h: nat, pos: nat, d: seq<byte>, B: nat): (r: Store)
    requires Shaped(st, B) && h < |st.map_| && pos % B + |d| <= B
    ensures Shaped(r, B) && |r.map_| == |st.map_|
  {
    Push(st, h, pos / B, Merged(Load(st, h, pos / B, B), pos % B, d, B), B)
  }

  /** The loop of _fwrite; positions wrap at 64 bits. */
  function WriteLoop(st: Store, h: nat, pos: nat, data: seq<byte>, B: nat): (r: Store)
    requires Shaped(st, B) && h < |st.map_|
    ensures Shaped(r, B) && |r.map_| == |st.map_|
    decreases |data|
  {
    if data == [] then st
    else
      var n := Chunk(pos, |data|, B);
      WriteLoop(WriteStep(st, h, pos, data[..n], B), h, (pos + n) % TWO_64, data[n..], B)
  }

  /** The loop of _fread; it stops early at a missing block. */
  function ReadLoop(st: Store, h: nat, pos: nat, left: nat, B: nat): (r: seq<byte>)
    requires Shaped(st, B) && h < |st.map_|
    ensures |r| <= left
    decreases left
  {
    if left == 0 then []
    else
      var blk := Load(st, h, pos / B, B);
      if blk.None? then []
      else
        var n := Chunk(pos, left, B);
        blk.value[pos % B..pos % B + n] + ReadLoop(st, h, (pos + n) % TWO_64, left - n, B)
  }

  // ---------------------------------------------------------------- the simple view

  /** The data blocks of file c in order. */
  function FileBlocks(st: Store, c: Fcode, B: nat): (r: seq<seq<byte>>)
    requires Valid(st, B) && c != NO_FILE
    ensures |r| == Tails(st.map_, c)
    ensures forall j :: 0 <= j < |r| ==>
      Find(st.map_, c, j + 1) < |st.blocks| && r[j] == st.blocks[Find(st.map_, c, j + 1)]
    ensures Blocky(r, B)
  {
    seq(Tails(st.map_, c), j requires 0 <= j < Tails(st.map_, c) => st.blocks[Find(st.map_, c, j + 1)])
  }

  ghost predicate Blocky(bs: seq<seq<byte>>, B: nat)
  {
    forall j :: 0 <= j < |bs| ==> |bs[j]| == B
  }

  function Flat(bs: seq<seq<byte>>): seq<byte>
  {
    if bs == [] then [] else Flat(bs[..|bs| - 1]) + bs[|bs| - 1]
  }

  /** File c as a plain byte sequence. */
  function Contents(st: Store, c: Fcode, B: nat): seq<byte>
    requires Valid(st, B) && c != NO_FILE
  {
    Flat(FileBlocks(st, c, B))
  }

  /** The length of j blocks, by addition. */
  function Span(j: nat, B: nat): nat
  {
    if j == 0 then 0 else Span(j - 1, B) + B
  }

  lemma {:induction false} SpanIs(j: nat, B: nat)
    ensures Span(j, B) == j * B
  {
    if j > 0 {
      SpanIs(j - 1, B);
      assert (j - 1) * B + B == j * B;
    }
  }

  lemma {:induction false} SpanMono(j: nat, k: nat, B: nat)
    requires j <= k
    ensures Span(j, B) <= Span(k, B)
  {
    if j < k {
      SpanMono(j, k - 1, B);
    }
  }

  lemma {:induction false} FlatLength(bs: seq<seq<byte>>, B: nat)
    requires Blocky(bs, B)
    ensures |Flat(bs)| == Span(|bs|, B)
  {
    if bs != [] {
      FlatLength(bs[..|bs| - 1], B);
    }
  }

  lemma {:induction false} FlatConcat(a: seq<seq<byte>>, b: seq<seq<byte>>)
    ensures Flat(a + b) == Flat(a) + Flat(b)
  {
    if b == [] {
      assert a + b == a;
    } else {
      var b' := b[..|b| - 1];
      FlatConcat(a, b');
      assert (a + b)[..|a + b| - 1] == a + b';
      assert Flat(a) + (Flat(b') + b[|b| - 1]) == (Flat(a) + Flat(b')) + b[|b| - 1];
    }
  }

  /** Block j of the stream, with what precedes and follows it. */
  lemma FlatAround(bs: seq<seq<byte>>, j: nat, B: nat)
    requires Blocky(bs, B) && j < |bs|
    ensures Flat(bs) == Flat(bs[..j]) + bs[j] + Flat(bs[j + 1..])
    ensures |Flat(bs[..j])| == Span(j, B)
  {
    FlatLength(bs[..j], B);
    FlatConcat(bs[..j], [bs[j]]);
    FlatConcat(bs[..j] + [bs[j]], bs[j + 1..]);
    assert bs[..j] + [bs[j]] + bs[j + 1..] == bs;
    assert Flat([bs[j]]) == bs[j] by {
      assert Flat([bs[j]][..0]) == [];
    }
  }

  /** n rounded up to a whole number of blocks. */
  function RoundUp(n: nat, B: nat): nat
    requires B > 0
  {
    if n == 0 then 0 else if n <= B then B else B + RoundUp(n - B, B)
  }

  /** old_ cut or zero-extended to len bytes, then d laid over it at s. */
  function Overlay(old_: seq<byte>, len: nat, s: nat, d: seq<byte>): (r: seq<byte>)
    ensures |r| == len
    ensures forall i {:trigger r[i]} :: 0 <= i < len ==>
      r[i] == if s <= i < s + |d| then d[i - s] else if i < |old_| then old_[i] else 0
  {
    seq(len, i requires 0 <= i => if s <= i < s + |d| then d[i - s] else if i < |old_| then old_[i] else 0)
  }

  /** A growable byte sequence: grow with zeros to a block boundary, then overwrite at s. */
  function Patch(old_: seq<byte>, s: nat, d: seq<byte>, B: nat): (r: seq<byte>)
    requires B > 0
  {
    if d == [] then old_ else Overlay(old_, Max(|old_|, RoundUp(s + |d|, B)), s, d)
  }

  lemma {:induction false} RoundUpMono(a: nat, b: nat, B: nat)
    requires B > 0 && a <= b
    ensures a <= RoundUp(a, B) <= RoundUp(b, B)
    decreases b
  {
    if a > B {
      RoundUpMono(a - B, b - B, B);
    }
  }

  lemma PatchIs(old_: seq<byte>, s: nat, d: seq<byte>, len: nat, B: nat)
    requires B > 0 && d != [] && len == Max(|old_|, RoundUp(s + |d|, B))
    ensures Patch(old_, s, d, B) == Overlay(old_, len, s, d)
  {
  }

  lemma OverlayOverlay(o: seq<byte>, l: nat, l': nat, s: nat, a: seq<byte>, b: seq<byte>)
    requires |o| <= l <= l' && s + |a| <= l
    ensures Overlay(Overlay(o, l, s, a), l', s + |a|, b) == Overlay(o, l', s, a + b)
  {
  }

  /** Two adjacent patches are one. */
  lemma PatchPatch(old_: seq<byte>, s: nat, a: seq<byte>, b: seq<byte>, B: nat)
    requires B > 0
    ensures Patch(Patch(old_, s, a, B), s + |a|, b, B) == Patch(old_, s, a + b, B)
  {
    if a == [] {
      assert a + b == b;
    } else if b == [] {
      assert a + b == a;
    } else {
      var e, e' := s + |a|, s + |a + b|;
      assert e' == e + |b|;
      RoundUpMono(e, e', B);
      var l, l' := Max(|old_|, RoundUp(e, B)), Max(|old_|, RoundUp(e', B));
      OverlayOverlay(old_, l, l', s, a, b);
      PatchIs(old_, s, a, l, B);
      PatchIs(old_, s, a + b, l', B);
      PatchIs(Patch(old_, s, a, B), e, b, l', B);
    }
  }

  // ---------------------------------------------------------------- one chunk

  /** What a write for file c may change: its own data blocks and slots that were free. */
  ghost predicate Frame(st: Store, st': Store, c: Fcode)
  {
    && MapGrew(st.map_, st'.map_, c) && |st'.blocks| == |st.blocks| == |st.map_|
    && forall k {:trigger At(st.map_, k)} :: At(st.map_, k) ==>
      st'.blocks[k] == st.blocks[k] || IsTail(st'.map_[k], c)
  }

  lemma FrameTrans(s0: Store, s1: Store, s2: Store, c: Fcode)
    requires c != NO_FILE && Frame(s0, s1, c) && Frame(s1, s2, c)
    ensures Frame(s0, s2, c)
  {
    MapGrewTrans(s0.map_, s1.map_, s2.map_, c);
    forall k | At(s0.map_, k)
      ensures s2.blocks[k] == s0.blocks[k] || IsTail(s2.map_[k], c)
    {
      assert At(s1.map_, k);
    }
  }

  /** The handle's slot survives such a change. */
  lemma FrameHead(st: Store, st': Store, h: nat)
    requires LiveHead(st.map_, h) && Frame(st, st', st.map_[h].code)
    ensures LiveHead(st'.map_, h) && st'.map_[h] == st.map_[h] && st'.blocks[h] == st.blocks[h]
  {
    assert At(st.map_, h);
  }

  /** What any call on the file at h may change: the same, and the head block. */
  ghost predicate Confined(st: Store, st': Store, h: nat)
  {
    && LiveHead(st.map_, h) && MapGrew(st.map_, st'.map_, st.map_[h].code)
    && |st'.blocks| == |st.blocks| == |st.map_|
    && forall k {:trigger At(st.map_, k)} :: At(st.map_, k) ==>
      st'.blocks[k] == st.blocks[k] || k == h || IsTail(st'.map_[k], st.map_[h].code)
  }

  lemma ConfinedHead(st: Store, st': Store, h: nat)
    requires Confined(st, st', h)
    ensures LiveHead(st'.map_, h) && st'.map_[h] == st.map_[h]
  {
    assert At(st.map_, h);
  }

  lemma ConfinedTrans(s0: Store, s1: Store, s2: Store, h: nat)
    requires Confined(s0, s1, h) && Confined(s1, s2, h)
    ensures Confined(s0, s2, h)
  {
    ConfinedHead(s0, s1, h);
    MapGrewTrans(s0.map_, s1.map_, s2.map_, s0.map_[h].code);
    forall k | At(s0.map_, k)
      ensures s2.blocks[k] == s0.blocks[k] || k == h || IsTail(s2.map_[k], s0.map_[h].code)
    {
      assert At(s1.map_, k);
    }
  }

  /** Every other file keeps its slots, its length and its bytes. */
  lemma ConfinedOthers(st: Store, st': Store, h: nat, d: Fcode, B: nat)
    requires Valid(st, B) && Valid(st', B) && Confined(st, st', h)
    requires d != st.map_[h].code && d != NO_FILE
    ensures forall x: nat :: Find(st'.map_, d, x) == Find(st.map_, d, x)
    ensures Contents(st', d, B) == Contents(st, d, B)
  {
    forall k | 0 <= k < |st.map_|
      ensures st.map_[k].code == d || st'.map_[k].code == d ==>
                st'.map_[k] == st.map_[k] && st'.blocks[k] == st.blocks[k]
    {
      assert At(st.map_, k);
    }
    forall x: nat
      ensures Find(st'.map_, d, x) == Find(st.map_, d, x)
    {
      FindSame(st.map_, st'.map_, d, x);
    }
    TailsSame(st.map_, st'.map_, d);
    assert FileBlocks(st', d, B) == FileBlocks(st, d, B);
  }

  lemma {:induction false} TailsSame(m: Slots, m': Slots, d: Fcode)
    requires |m| == |m'| && forall k :: 0 <= k < |m| ==> (IsTail(m[k], d) <==> IsTail(m'[k], d))
    ensures Tails(m, d) == Tails(m', d)
  {
    if m != [] {
      TailsSame(m[..|m| - 1], m'[..|m| - 1], d);
    }
  }

  /** The bytes of file c in st' are those in st with d laid over them at s. */
  ghost predicate Patched(st: Store, st': Store, c: Fcode, s: nat, d: seq<byte>, B: nat)
  {
    && Valid(st, B) && Valid(st', B) && c != NO_FILE
    && Contents(st', c, B) == Patch(Contents(st, c, B), s, d, B)
  }

  /** The new slot extends its family by one. */
  lemma NextSlotExtends(m: Slots, h: nat, f: nat)
    requires Inv(m) && LiveHead(m, h) && f < |m| && Free(m[f])
    ensures var s, c := NextSlot(m, h), m[h].code;
      && s.index == Tails(m, c) + 1 && !Has(m, c, s.index)
      && Inv(m[f := s])
      && Tails(m[f := s], c) == Tails(m, c) + 1
  {
    var s, c := NextSlot(m, h), m[h].code;
    FindAny(m, c, 0, h);
    MembersSplit(m, c);
    assert At(m, h);
    assert !(Find(m, c, s.index) < |m|);
    PlaceInv(m, f, s);
    CountUpdate(m, f, s, c);
  }

  /** The position of a chunk in block x >= 1. */
  lemma ChunkAt(pos: nat, B: nat)
    requires B > 0 && pos / B >= 1
    ensures pos >= B && pos - B == Span(pos / B - 1, B) + pos % B
  {
    var x := pos / B;
    DivMod(pos, B);
    MulMono(1, x, B);
    SpanIs(x - 1, B);
    assert (x - 1) * B == x * B - B;
  }

  lemma {:induction false} RoundUpIn(j: nat, n: nat, B: nat)
    requires Span(j, B) < n <= Span(j, B) + B
    ensures RoundUp(n, B) == Span(j, B) + B
  {
    if j > 0 {
      RoundUpIn(j - 1, n - B, B);
    }
  }

  /** The block a chunk leaves behind, as an overlay of the old block. */
  lemma MergedSome(blk: seq<byte>, off: nat, d: seq<byte>, B: nat)
    requires off + |d| <= B && |blk| == B
    ensures Merged(Some(blk), off, d, B) == Overlay(blk, B, off, d)
  {
    if |d| < B {
      assert Merged(Some(blk), off, d, B) == blk[..off] + d + blk[off + |d|..];
    } else {
      assert d == Overlay(blk, B, 0, d);
    }
  }

  lemma MergedNone(off: nat, d: seq<byte>, B: nat)
    requires off + |d| <= B
    ensures Merged(None, off, d, B) == Overlay([], B, off, d)
  {
    if |d| < B {
      assert Merged(None, off, d, B) == Zeros(B)[..off] + d + Zeros(B)[off + |d|..];
    } else {
      assert d == Overlay([], B, 0, d);
    }
  }

  /** Laying d over the middle part of a stream. */
  lemma OverlayMiddle(p: seq<byte>, b: seq<byte>, q: seq<byte>, off: nat, d: seq<byte>, s: nat)
    requires off + |d| <= |b| && s == |p| + off
    ensures p + Overlay(b, |b|, off, d) + q == Overlay(p + b + q, |p + b + q|, s, d)
  {
  }

  lemma OverlayEnd(p: seq<byte>, B: nat, off: nat, d: seq<byte>, s: nat)
    requires off + |d| <= B && s == |p| + off
    ensures p + Overlay([], B, off, d) == Overlay(p, |p| + B, s, d)
  {
  }

  /** Replacing block j replaces its stretch of the stream. */
  lemma FlatUpdate(bs: seq<seq<byte>>, j: nat, b: seq<byte>, B: nat)
    requires Blocky(bs, B) && j < |bs| && |b| == B
    ensures Flat(bs[j := b]) == Flat(bs[..j]) + b + Flat(bs[j + 1..])
    ensures Flat(bs) == Flat(bs[..j]) + bs[j] + Flat(bs[j + 1..])
    ensures |Flat(bs[..j])| == Span(j, B)
  {
    FlatAround(bs, j, B);
    FlatAround(bs[j := b], j, B);
    assert bs[j := b][..j] == bs[..j] && bs[j := b][j + 1..] == bs[j + 1..];
  }

  /** A chunk within the stream, as blocks and as bytes. */
  lemma PatchInPlace(bs: seq<seq<byte>>, j: nat, b: seq<byte>, off: nat, d: seq<byte>, s: nat, B: nat)
    requires B > 0 && Blocky(bs, B) && j < |bs| && d != [] && off + |d| <= B
    requires b == Overlay(bs[j], B, off, d) && s == Span(j, B) + off
    ensures Flat(bs[j := b]) == Patch(Flat(bs), s, d, B)
  {
    var p, q, o := Flat(bs[..j]), Flat(bs[j + 1..]), Flat(bs);
    FlatUpdate(bs, j, b, B);
    OverlayMiddle(p, bs[j], q, off, d, s);
    FlatLength(bs, B);
    RoundUpIn(j, s + |d|, B);
    SpanMono(j + 1, |bs|, B);
    PatchIs(o, s, d, |o|, B);
  }

  /** A chunk in the block that follows the stream. */
  lemma PatchAtEnd(bs: seq<seq<byte>>, b: seq<byte>, off: nat, d: seq<byte>, s: nat, B: nat)
    requires B > 0 && Blocky(bs, B) && d != [] && off + |d| <= B
    requires b == Overlay([], B, off, d) && s == Span(|bs|, B) + off
    ensures Flat(bs + [b]) == Patch(Flat(bs), s, d, B)
  {
    var o := Flat(bs);
    FlatLength(bs, B);
    RoundUpIn(|bs|, s + |d|, B);
    assert Flat(bs + [b]) == o + b by {
      assert (bs + [b])[..|bs|] == bs;
    }
    OverlayEnd(o, B, off, d, s);
    PatchIs(o, s, d, |o| + B, B);
  }

  /** st' is st with block x of file c replaced by b. */
  ghost predicate Replaced(st: Store, st': Store, c: Fcode, x: nat, b: seq<byte>)
  {
    var k := Find(st.map_, c, x);
    k < |st.blocks| && st' == st.(blocks := st.blocks[k := b])
  }

  /** st' is st with free slot f filled by the next block of the family at h. */
  ghost predicate Appended(st: Store, st': Store, h: nat, f: nat, b: seq<byte>)
  {
    && h < |st.map_| && f < |st.map_| == |st.blocks| && Free(st.map_[f])
    && st' == Store(st.map_[f := NextSlot(st.map_, h)], f, st.blocks[f := b])
  }

  lemma ReplaceBlock(st: Store, st': Store, c: Fcode, x: nat, b: seq<byte>, B: nat)
    requires Valid(st, B) && c != NO_FILE && 1 <= x <= Tails(st.map_, c) && |b| == B
    requires Replaced(st, st', c, x, b)
    ensures Valid(st', B) && Frame(st, st', c)
    ensures FileBlocks(st', c, B) == FileBlocks(st, c, B)[x - 1 := b]
  {
    hide Unique, Flagged, Sized, Tails;
    forall j | 0 <= j < Tails(st.map_, c)
      ensures FileBlocks(st', c, B)[j] == FileBlocks(st, c, B)[x - 1 := b][j]
    {
      assert Is(st.map_[Find(st.map_, c, j + 1)], c, j + 1);
    }
  }

  lemma AppendBlock(st: Store, st': Store, h: nat, f: nat, b: seq<byte>, B: nat)
    requires Valid(st, B) && LiveHead(st.map_, h) && |b| == B && Appended(st, st', h, f, b)
    ensures Valid(st', B) && Frame(st, st', st.map_[h].code)
    ensures Tails(st'.map_, st.map_[h].code) == Tails(st.map_, st.map_[h].code) + 1
    ensures FileBlocks(st', st.map_[h].code, B) == FileBlocks(st, st.map_[h].code, B) + [b]
  {
    var c, s := st.map_[h].code, NextSlot(st.map_, h);
    NextSlotExtends(st.map_, h, f);
    var bs, bs' := FileBlocks(st, c, B), FileBlocks(st', c, B);
    forall j | 0 <= j <= |bs|
      ensures bs'[j] == (bs + [b])[j]
    {
      PlaceFind(st.map_, f, s, c, j + 1);
    }
  }

  /** A chunk in an existing block rewrites that block. */
  lemma StepInPlaceIs(st: Store, h: nat, pos: nat, d: seq<byte>, B: nat) returns (b: seq<byte>)
    requires Valid(st, B) && LiveHead(st.map_, h)
    requires 1 <= pos / B <= Tails(st.map_, st.map_[h].code)
    requires pos % B + |d| <= B
    ensures Replaced(st, WriteStep(st, h, pos, d, B), st.map_[h].code, pos / B, b)
    ensures b == Overlay(st.blocks[Find(st.map_, st.map_[h].code, pos / B)], B, pos % B, d)
  {
    var c, x := st.map_[h].code, pos / B;
    TailsBound(st.map_, c);
    var k := Find(st.map_, c, x);
    assert k < |st.blocks|;
    b := Merged(Some(st.blocks[k]), pos % B, d, B);
    MergedSome(st.blocks[k], pos % B, d, B);
  }

  /** A block past the end is looked up, missed, added and written, if a slot can be had. */
  lemma StepNewBlockIs(st: Store, h: nat, pos: nat, d: seq<byte>, B: nat) returns (b: seq<byte>)
    requires Valid(st, B) && LiveHead(st.map_, h)
    requires pos / B == Tails(st.map_, st.map_[h].code) + 1
    requires pos % B + |d| <= B
    ensures b == Overlay([], B, pos % B, d)
    ensures var f, st' := FreeFrom(st.map_, st.hint), WriteStep(st, h, pos, d, B);
      if f < |st.map_| then Appended(st, st', h, f, b) else st' == st.(hint := 0)
  {
    var c, x := st.map_[h].code, pos / B;
    assert !(Find(st.map_, c, x) < |st.map_|);
    TailsBelow(st.map_, h);
    b := Merged(None, pos % B, d, B);
    MergedNone(pos % B, d, B);
    var f := FreeFrom(st.map_, st.hint);
    if f < |st.map_| {
      assert st.blocks[f := Zeros(B)][f := b] == st.blocks[f := b];
    }
  }

  /** Replacing a block by an overlay of itself patches the stream. */
  lemma ReplacedWrote(st: Store, st': Store, c: Fcode, x: nat, b: seq<byte>, off: nat, d: seq<byte>, s: nat, B: nat)
    requires Valid(st, B) && c != NO_FILE && 1 <= x <= Tails(st.map_, c) && Replaced(st, st', c, x, b)
    requires d != [] && off + |d| <= B && s == Span(x - 1, B) + off
    requires b == Overlay(st.blocks[Find(st.map_, c, x)], B, off, d)
    ensures Frame(st, st', c) && Patched(st, st', c, s, d, B)
  {
    hide Inv, Overlay, Frame, Patch, Flat;
    ReplaceBlock(st, st', c, x, b, B);
    var bs, bs' := FileBlocks(st, c, B), FileBlocks(st', c, B);
    PatchInPlace(bs, x - 1, b, off, d, s, B);
    assert Flat(bs') == Patch(Flat(bs), s, d, B);
  }

  lemma StepInPlace(st: Store, h: nat, pos: nat, d: seq<byte>, B: nat)
    requires Valid(st, B) && LiveHead(st.map_, h)
    requires 1 <= pos / B <= Tails(st.map_, st.map_[h].code)
    requires d != [] && pos % B + |d| <= B
    ensures WriteStep(st, h, pos, d, B).map_ == st.map_ && WriteStep(st, h, pos, d, B).hint == st.hint
    ensures Frame(st, WriteStep(st, h, pos, d, B), st.map_[h].code)
    ensures pos >= B && Patched(st, WriteStep(st, h, pos, d, B), st.map_[h].code, pos - B, d, B)
  {
    hide Inv, Overlay, Patched, Frame, Tails, Replaced;
    var b := StepInPlaceIs(st, h, pos, d, B);
    ChunkAt(pos, B);
    ReplacedWrote(st, WriteStep(st, h, pos, d, B), st.map_[h].code, pos / B, b, pos % B, d, pos - B, B);
  }

  lemma StepNewBlock(st: Store, h: nat, pos: nat, d: seq<byte>, B: nat)
    requires Valid(st, B) && LiveHead(st.map_, h)
    requires pos / B == Tails(st.map_, st.map_[h].code) + 1
    requires FreeFrom(st.map_, st.hint) < |st.map_|
    requires d != [] && pos % B + |d| <= B
    ensures var f, st' := FreeFrom(st.map_, st.hint), WriteStep(st, h, pos, d, B);
      && st'.map_ == st.map_[f := NextSlot(st.map_, h)] && st'.hint == f
      && Tails(st'.map_, st.map_[h].code) == Tails(st.map_, st.map_[h].code) + 1
    ensures Frame(st, WriteStep(st, h, pos, d, B), st.map_[h].code)
    ensures pos >= B && Patched(st, WriteStep(st, h, pos, d, B), st.map_[h].code, pos - B, d, B)
  {
    var c, f, st' := st.map_[h].code, FreeFrom(st.map_, st.hint), WriteStep(st, h, pos, d, B);
    var b := StepNewBlockIs(st, h, pos, d, B);
    AppendBlock(st, st', h, f, b, B);
    ChunkAt(pos, B);
    var bs, bs' := FileBlocks(st, c, B), FileBlocks(st', c, B);
    PatchAtEnd(bs, b, pos % B, d, pos - B, B);
    assert Flat(bs') == Patch(Flat(bs), pos - B, d, B);
  }

  /** A live head leaves room for its data blocks to be numbered in 32 bits. */
  lemma TailsBelow(m: Slots, h: nat)
    requires Inv(m) && LiveHead(m, h)
    ensures Tails(m, m[h].code) < |m|
  {
    CountUpdate(m, h, Slot(m[h].code, m[h].attrs, 1), m[h].code);
    TailsBound(m[h := Slot(m[h].code, m[h].attrs, 1)], m[h].code);
  }
}
