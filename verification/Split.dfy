/** Two writes in a row against one: when they leave the same map, hint, cursor and blocks. */
module Split {
  import opened Arith
  import opened ClusterMap
  import opened FileStore
  import opened Write
  import opened Limits
  import opened Files
  import opened Stream
  import opened Chunks

  // ---------------------------------------------------------------- two writes that share a block

  /** Two writes a0 + a1 and b0 + b1 that meet inside a block: a1 and b0 lie in it, a0 before it, b1 after. */
  datatype Parts = Parts(a0: seq<byte>, a1: seq<byte>, b0: seq<byte>, b1: seq<byte>)

  ghost predicate Meets(p: Parts, pos: nat, p1: nat, p2: nat, p3: nat, B: nat)
  {
    && B > 0 && p1 == pos + |p.a0| && p2 == p1 + |p.a1| && p3 == p2 + |p.b0| && p3 < TWO_64
    && p.a1 != [] && p.b0 != [] && (p.a0 == [] || p1 % B == 0)
    && p1 % B + |p.a1| + |p.b0| <= B && (p.b1 == [] || p1 % B + |p.a1| + |p.b0| == B)
  }

  /** a and b, written from pos on, meet at p2 as p says. */
  ghost predicate Parted(p: Parts, pos: nat, a: seq<byte>, b: seq<byte>, p1: nat, p2: nat, p3: nat, B: nat)
  {
    && Meets(p, pos, p1, p2, p3, B) && a == p.a0 + p.a1 && b == p.b0 + p.b1
    && p1 / B == p2 / B && p2 % B == p1 % B + |p.a1|
  }

  lemma Meet(pos: nat, a: seq<byte>, b: seq<byte>, p2: nat, B: nat) returns (p: Parts, p1: nat, p3: nat)
    requires B > 0 && a != [] && b != [] && p2 == pos + |a| && p2 + |b| < TWO_64 && p2 % B != 0
    ensures Parted(p, pos, a, b, p1, p2, p3, B)
  {
    var k := p2 % B;
    var i, j := if |a| <= k then 0 else |a| - k, Min(|b|, B - k);
    p, p1, p3 := Parts(a[..i], a[i..], b[..j], b[j..]), pos + i, p2 + j;
    DivMod(p2, B);
    if i == 0 {
      DivIs(pos, B, p2 / B, pos - p2 / B * B);
    } else {
      DivIs(p1, B, p2 / B, 0);
    }
  }

  /** Two writes that meet in a block, chunk by chunk. */
  lemma TwoWrites(st: Store, h: nat, pos: nat, a: seq<byte>, b: seq<byte>, p: Parts, p1: nat, p2: nat, p3: nat,
                  s: Store, s1: Store, s2: Store, ra: Store, rb: Store, B: nat)
    requires Parted(p, pos, a, b, p1, p2, p3, B)
    requires LoopEnds(st, h, pos, p.a0, B, s) && s1 == WriteStep(s, h, p1, p.a1, B)
    requires s2 == WriteStep(s1, h, p2, p.b0, B)
    requires LoopEnds(st, h, pos, a, B, ra) && LoopEnds(ra, h, p2, b, B, rb)
    ensures ra == s1 && LoopEnds(s2, h, p3, p.b1, B, rb)
  {
    assert p.a1 == p.a1 + [];
    LoopOnce(s, h, p1, p.a1, [], p.a1, p2, s1, s1, B);
    LoopConcat(st, s, s1, h, pos, p.a0, p.a1, a, p1, B);
    LoopOnce(s1, h, p2, p.b0, p.b1, b, p3, s2, rb, B);
  }

  /** The one write, chunk by chunk. */
  lemma OneWrite(st: Store, h: nat, pos: nat, ab: seq<byte>, p: Parts, p1: nat, p2: nat, p3: nat,
                 d: seq<byte>, s: Store, s2: Store, r: Store, B: nat)
    requires Meets(p, pos, p1, p2, p3, B) && ab == p.a0 + p.a1 + (p.b0 + p.b1) && d == p.a1 + p.b0
    requires LoopEnds(st, h, pos, p.a0, B, s) && s2 == WriteStep(s, h, p1, d, B)
    requires LoopEnds(st, h, pos, ab, B, r)
    ensures LoopEnds(s2, h, p3, p.b1, B, r)
  {
    var r', tail := WriteLoop(s2, h, p3, p.b1, B), d + p.b1;
    Regrouped(p, d, tail, ab);
    LoopOnce(s, h, p1, d, p.b1, tail, p3, s2, r', B);
    LoopConcat(st, s, r', h, pos, p.a0, tail, ab, p1, B);
  }

  lemma Regrouped(p: Parts, d: seq<byte>, tail: seq<byte>, ab: seq<byte>)
    requires ab == p.a0 + p.a1 + (p.b0 + p.b1) && d == p.a1 + p.b0 && tail == d + p.b1
    ensures ab == p.a0 + tail
  {
  }

  // ---------------------------------------------------------------- the map ahead of the shared block

  /** How many blocks from y on, but before x, a file of t data blocks lacks. */
  function Lacking(y: nat, t: nat, x: nat): nat
  {
    if x > Max(y, t + 1) then x - Max(y, t + 1) else 0
  }

  /** A chunk in block y: the map and the hint move by an allocate-and-fill step if the block is missing. */
  lemma StepGrows(st: Store, h: nat, pos: nat, d: seq<byte>, B: nat) returns (r: Store)
    requires Valid(st, B) && LiveHead(st.map_, h) && 1 <= pos / B < TWO_32 && pos % B + |d| <= B
    ensures r == WriteStep(st, h, pos, d, B) && Soundly(st, r, h, B)
    ensures var t, y, t' := Tails(st.map_, st.map_[h].code), pos / B, Tails(r.map_, st.map_[h].code);
      && (r.map_, r.hint) == Grow(st.map_, st.hint, h, if y <= t then 0 else 1)
      && t <= t' <= t + 1 && (y <= t ==> t' == t)
  {
    hide Merged, Members, Unique, Flagged, Sized;
    var n;
    r, n := StepAny(st, h, pos, d, B);
    var c, y, f := st.map_[h].code, pos / B, FreeFrom(st.map_, st.hint);
    assert Find(st.map_, c, y) < |st.map_| <==> y <= Tails(st.map_, c);
    if y <= Tails(st.map_, c) {
      StepFound(st, h, pos, Find(st.map_, c, y), d, Merged(Some(st.blocks[Find(st.map_, c, y)]), pos % B, d, B), B);
    } else if f < |st.map_| {
      StepTaken(st, h, pos, f, d, Merged(None, pos % B, d, B), B);
      assert Grow(st.map_[f := NextSlot(st.map_, h)], f, h, 0) == (st.map_[f := NextSlot(st.map_, h)], f);
    } else {
      StepFails(st, h, pos, d, B);
      assert Grow(st.map_, 0, h, 0) == (st.map_, 0);
    }
  }

  /** The map and the hint when a write that started in block y comes to block x. */
  lemma {:induction false} LoopBefore(st: Store, r: Store, h: nat, pos: nat, data: seq<byte>, pos': nat,
                                      y: nat, t: nat, x: nat, B: nat)
    requires Valid(st, B) && LiveHead(st.map_, h) && LoopEnds(st, h, pos, data, B, r)
    requires pos' == pos + |data| < TWO_64 && B > 0 && (data == [] || pos' % B == 0)
    requires 1 <= y == pos / B && x == pos' / B < TWO_32 && t == Tails(st.map_, st.map_[h].code)
    ensures Soundly(st, r, h, B)
    ensures (r.map_, r.hint) == Grow(st.map_, st.hint, h, Lacking(y, t, x))
    decreases |data|
  {
    hide Inv, WriteStep, Tails;
    if data != [] {
      var d, rest, pos1 := FirstWhole(pos, data, pos', B);
      DivMono(pos1, pos', B);
      var st1 := StepGrows(st, h, pos, d, B);
      LoopOnce(st, h, pos, d, rest, data, pos1, st1, r, B);
      LoopBefore(st1, r, h, pos1, rest, pos', y + 1, Tails(st1.map_, st1.map_[h].code), x, B);
      SoundlyTrans(st, st1, r, h, B);
      GrowOn(st, st1, h, y, t, x);
    }
  }

  /** One step and then the rest. */
  lemma GrowOn(st: Store, st1: Store, h: nat, y: nat, t: nat, x: nat)
    requires LiveHead(st.map_, h) && LiveHead(st1.map_, h) && st1.map_[h] == st.map_[h] && y < x
    requires var t' := Tails(st1.map_, st.map_[h].code);
      && (st1.map_, st1.hint) == Grow(st.map_, st.hint, h, if y <= t then 0 else 1)
      && t <= t' <= t + 1 && (y <= t ==> t' == t)
    ensures Grow(st1.map_, st1.hint, h, Lacking(y + 1, Tails(st1.map_, st.map_[h].code), x))
            == Grow(st.map_, st.hint, h, Lacking(y, t, x))
  {
    var t' := Tails(st1.map_, st.map_[h].code);
    var n := if y <= t then 0 else 1;
    assert n + Lacking(y + 1, t', x) == Lacking(y, t, x);
    GrowGrow(st.map_, st.hint, h, n, Lacking(y + 1, t', x));
  }

  /** The condition: the writes meet at a block boundary, or the first one is stored as it should be, or no
      slot is free any more when the first one comes to the block they share. */
  ghost predicate Seamless(m: Slots, hint: nat, h: nat, pos: nat, n: nat, B: nat)
    requires h < |m| && B > 0
  {
    var t, y, x := Tails(m, m[h].code), pos / B, (pos + n) / B;
    || (pos + n) % B == 0
    || (y <= t + 1 && x <= t + FreeCount(m, hint))
    || FreeCount(Grow(m, hint, h, Lacking(y, t, x)).0, 0) == 0
  }

  /** Unless it ends at a block boundary, the last block of a write is the one its end lies in. */
  lemma LastIs(pos: nat, n: nat, B: nat)
    requires B > 0 && n > 0 && (pos + n) % B != 0
    ensures LastBlock(pos, n, B) == (pos + n) / B >= pos / B
  {
    DivMono(pos, pos + n, B);
    DivMod(pos + n, B);
    DivIs(pos + n - 1, B, (pos + n) / B, (pos + n) % B - 1);
  }

  /** Is the block that two writes share there after the first one? */
  lemma SharedThere(st: Store, h: nat, pos: nat, a: seq<byte>, ra: Store, c: Fcode, x: nat, B: nat)
    requires Valid(st, B) && LiveHead(st.map_, h) && B <= pos && a != [] && pos + |a| < TWO_64
    requires (pos + |a|) % B != 0 && x == (pos + |a|) / B && c == st.map_[h].code
    requires LoopEnds(st, h, pos, a, B, ra)
    ensures Soundly(st, ra, h, B)
    ensures x <= Tails(ra.map_, c) <==>
            pos / B <= Tails(st.map_, c) + 1 && x <= Tails(st.map_, c) + FreeCount(st.map_, st.hint)
  {
    LastIs(pos, |a|, B);
    LoopSound(st, ra, h, pos, a, B);
    WriteReaches(st, ra, h, c, pos, a, x, B);
  }

  /** The state when two writes that share a block come to it, and after the first one. */
  ghost predicate ComesTo(st: Store, h: nat, pos: nat, p: Parts, p1: nat, s: Store, s1: Store, B: nat)
  {
    && LoopEnds(st, h, pos, p.a0, B, s) && p1 % B + |p.a1| <= B && s1 == WriteStep(s, h, p1, p.a1, B)
    && Soundly(st, s, h, B) && Soundly(s, s1, h, B)
  }

  lemma Comes(st: Store, h: nat, pos: nat, p: Parts, p1: nat, p2: nat, p3: nat, B: nat) returns (s: Store, s1: Store)
    requires Valid(st, B) && LiveHead(st.map_, h) && Meets(p, pos, p1, p2, p3, B)
    ensures ComesTo(st, h, pos, p, p1, s, s1, B)
  {
    s := WriteLoop(st, h, pos, p.a0, B);
    assert LoopEnds(st, h, pos, p.a0, B, s);
    LoopSound(st, s, h, pos, p.a0, B);
    var n;
    s1, n := StepAny(s, h, p1, p.a1, B);
  }

  /** The block two writes share can be looked up exactly when the family reaches it. */
  lemma Reached(m: Slots, h: nat, x: nat)
    requires Inv(m) && LiveHead(m, h) && x >= 1
    ensures x <= Tails(m, m[h].code) ==> Has(m, m[h].code, x % TWO_32)
    ensures x < TWO_32 ==> (Has(m, m[h].code, x % TWO_32) <==> x <= Tails(m, m[h].code))
  {
    TailsBelow(m, h);
    if x < TWO_32 {
      assert Find(m, m[h].code, x) < |m| <==> x <= Tails(m, m[h].code);
    }
  }

  /** The writes of a and then b, and of both at once, on the store. */
  ghost predicate ThreeLoops(st: Store, h: nat, pos: nat, a: seq<byte>, b: seq<byte>, pos': nat,
                             ra: Store, rb: Store, r: Store, B: nat)
  {
    && Valid(st, B) && LiveHead(st.map_, h) && B <= pos && a != [] && b != []
    && pos' == pos + |a| && pos' + |b| < TWO_64
    && LoopEnds(st, h, pos, a, B, ra) && LoopEnds(ra, h, pos', b, B, rb) && LoopEnds(st, h, pos, a + b, B, r)
  }

  /** The steps into the shared block are one: the rest follows. */
  lemma MergedLoops(st: Store, h: nat, pos: nat, a: seq<byte>, b: seq<byte>, pos': nat, ra: Store, rb: Store, r: Store,
                    p: Parts, p1: nat, p3: nat, s: Store, B: nat)
    requires ThreeLoops(st, h, pos, a, b, pos', ra, rb, r, B) && Parted(p, pos, a, b, p1, pos', p3, B)
    requires ComesTo(st, h, pos, p, p1, s, ra, B)
    requires WriteStep(ra, h, pos', p.b0, B) == WriteStep(s, h, p1, p.a1 + p.b0, B)
    ensures rb == r
  {
    var s2 := WriteStep(ra, h, pos', p.b0, B);
    TwoWrites(st, h, pos, a, b, p, p1, pos', p3, s, ra, s2, ra, rb, B);
    OneWrite(st, h, pos, a + b, p, p1, pos', p3, p.a1 + p.b0, s, s2, r, B);
  }

  /** How two writes that share a block come to it. */
  lemma Entered(st: Store, h: nat, pos: nat, a: seq<byte>, b: seq<byte>, pos': nat, ra: Store, rb: Store, r: Store,
                B: nat) returns (p: Parts, p1: nat, p3: nat, s: Store)
    requires ThreeLoops(st, h, pos, a, b, pos', ra, rb, r, B) && pos' % B != 0
    ensures Parted(p, pos, a, b, p1, pos', p3, B) && ComesTo(st, h, pos, p, p1, s, ra, B)
  {
    var s1;
    p, p1, p3 := Meet(pos, a, b, pos', B);
    s, s1 := Comes(st, h, pos, p, p1, pos', p3, B);
    TwoWrites(st, h, pos, a, b, p, p1, pos', p3, s, s1, WriteStep(s1, h, pos', p.b0, B), ra, rb, B);
  }

  /** The condition for writes that share a block. */
  lemma SeamlessInside(m: Slots, hint: nat, h: nat, pos: nat, n: nat, y: nat, t: nat, x: nat, B: nat)
    requires h < |m| && B > 0 && (pos + n) % B != 0
    requires y == pos / B && t == Tails(m, m[h].code) && x == (pos + n) / B
    ensures Seamless(m, hint, h, pos, n, B) <==>
            (y <= t + 1 && x <= t + FreeCount(m, hint)) || FreeCount(Grow(m, hint, h, Lacking(y, t, x)).0, 0) == 0
  {
  }

  /** The shared block and the map ahead of it. */
  lemma SharedFacts(st: Store, h: nat, pos: nat, a: seq<byte>, b: seq<byte>, pos': nat, ra: Store, c: Fcode, x: nat,
                    p: Parts, p1: nat, p3: nat, s: Store, B: nat) returns (y: nat, t: nat)
    requires Valid(st, B) && LiveHead(st.map_, h) && c == st.map_[h].code && a != [] && B <= pos
    requires pos' == pos + |a| < TWO_64 && pos' % B != 0 && x == pos' / B
    requires LoopEnds(st, h, pos, a, B, ra) && ComesTo(st, h, pos, p, p1, s, ra, B)
    requires Parted(p, pos, a, b, p1, pos', p3, B)
    ensures B > 0 && 1 <= y == pos / B <= x == p1 / B && t == Tails(st.map_, c)
    ensures Soundly(st, ra, h, B) && Soundly(st, s, h, B) && Soundly(s, ra, h, B)
    ensures x <= Tails(ra.map_, c) <==> y <= t + 1 && x <= t + FreeCount(st.map_, st.hint)
    ensures x < TWO_32 ==> (s.map_, s.hint) == Grow(st.map_, st.hint, h, Lacking(y, t, x))
  {
    hide Inv, WriteLoop, WriteStep, Grow, Tails, Find;
    DivMod(pos, B);
    DivLess(pos, B, 1);
    DivMono(pos, pos', B);
    y, t := pos / B, Tails(st.map_, c);
    SharedThere(st, h, pos, a, ra, c, x, B);
    if x < TWO_32 {
      LoopBefore(st, s, h, pos, p.a0, p1, y, t, x, B);
    }
  }

  /** On the condition above, the shared block is there after the first write, or no slot is free. */
  lemma SharedReady(st: Store, h: nat, pos: nat, a: seq<byte>, b: seq<byte>, pos': nat, ra: Store, c: Fcode, x: nat,
                   p: Parts, p1: nat, p3: nat, s: Store, B: nat)
    requires Valid(st, B) && LiveHead(st.map_, h) && c == st.map_[h].code && a != [] && B <= pos
    requires pos' == pos + |a| < TWO_64 && pos' % B != 0 && x == pos' / B
    requires LoopEnds(st, h, pos, a, B, ra) && ComesTo(st, h, pos, p, p1, s, ra, B)
    requires Parted(p, pos, a, b, p1, pos', p3, B)
    requires Seamless(st.map_, st.hint, h, pos, |a|, B)
    requires x < TWO_32
             || (pos / B <= Tails(st.map_, c) + 1 && x <= Tails(st.map_, c) + FreeCount(st.map_, st.hint))
    ensures p1 / B >= 1 && (Has(ra.map_, c, p1 / B % TWO_32) || FreeCount(s.map_, 0) == 0)
  {
    hide Inv, WriteLoop, WriteStep, Grow, Tails, Find, ComesTo, Parted, Seamless, LoopEnds;
    var y, t := SharedFacts(st, h, pos, a, b, pos', ra, c, x, p, p1, p3, s, B);
    SeamlessInside(st.map_, st.hint, h, pos, |a|, y, t, x, B);
    Reached(ra.map_, h, x);
  }

  /** The two steps into the shared block are then one. */
  lemma StepsAlike(pos: nat, h: nat, a: seq<byte>, b: seq<byte>, pos': nat, ra: Store, c: Fcode,
                   p: Parts, p1: nat, p3: nat, s: Store, B: nat)
    requires Soundly(s, ra, h, B) && c == s.map_[h].code && Parted(p, pos, a, b, p1, pos', p3, B) && p1 / B >= 1
    requires Has(ra.map_, c, p1 / B % TWO_32) || FreeCount(s.map_, 0) == 0
    requires p1 % B + |p.a1| <= B && ra == WriteStep(s, h, p1, p.a1, B)
    ensures WriteStep(ra, h, pos', p.b0, B) == WriteStep(s, h, p1, p.a1 + p.b0, B)
  {
    Merge(s, h, p1, pos', p.a1, p.b0, ra, B);
  }

  /** On the condition above, two writes are one, whatever they write. */
  lemma LoopsAlike(st: Store, h: nat, pos: nat, a: seq<byte>, b: seq<byte>, pos': nat, ra: Store, rb: Store, r: Store,
                   c: Fcode, x: nat, B: nat)
    requires ThreeLoops(st, h, pos, a, b, pos', ra, rb, r, B) && c == st.map_[h].code && x == pos' / B
    requires Seamless(st.map_, st.hint, h, pos, |a|, B)
    requires pos' % B == 0 || x < TWO_32
             || (pos / B <= Tails(st.map_, c) + 1 && x <= Tails(st.map_, c) + FreeCount(st.map_, st.hint))
    ensures rb == r
  {
    if pos' % B == 0 {
      LoopConcat(st, ra, rb, h, pos, a, b, a + b, pos', B);
    } else {
      SharedAlike(st, h, pos, a, b, pos', ra, rb, r, c, x, B);
    }
  }

  lemma SharedAlike(st: Store, h: nat, pos: nat, a: seq<byte>, b: seq<byte>, pos': nat, ra: Store, rb: Store, r: Store,
                    c: Fcode, x: nat, B: nat)
    requires ThreeLoops(st, h, pos, a, b, pos', ra, rb, r, B) && c == st.map_[h].code && x == pos' / B
    requires pos' % B != 0 && Seamless(st.map_, st.hint, h, pos, |a|, B)
    requires x < TWO_32
             || (pos / B <= Tails(st.map_, c) + 1 && x <= Tails(st.map_, c) + FreeCount(st.map_, st.hint))
    ensures rb == r
  {
    var p, p1, p3, s := Entered(st, h, pos, a, b, pos', ra, rb, r, B);
    SharedReady(st, h, pos, a, b, pos', ra, c, x, p, p1, p3, s, B);
    StepsAlike(pos, h, a, b, pos', ra, c, p, p1, p3, s, B);
    MergedLoops(st, h, pos, a, b, pos', ra, rb, r, p, p1, p3, s, B);
  }

  // ---------------------------------------------------------------- off the condition

  ghost predicate AllZero(d: seq<byte>) { forall i :: 0 <= i < |d| ==> d[i] == 0 }

  /** A chunk in another block leaves slot f and its block alone. */
  lemma StepSpares(st: Store, h: nat, pos: nat, d: seq<byte>, f: nat, B: nat)
    requires Valid(st, B) && LiveHead(st.map_, h) && 1 <= pos / B < TWO_32 && pos % B + |d| <= B
    requires f < |st.map_| && IsTail(st.map_[f], st.map_[h].code) && st.map_[f].index != pos / B
    ensures WriteStep(st, h, pos, d, B).map_[f] == st.map_[f]
    ensures WriteStep(st, h, pos, d, B).blocks[f] == st.blocks[f]
  {
  }

  lemma {:induction false} LoopSpares(st: Store, r: Store, h: nat, pos: nat, data: seq<byte>, f: nat, B: nat)
    requires Valid(st, B) && LiveHead(st.map_, h) && LoopEnds(st, h, pos, data, B, r)
    requires f < |st.map_| && IsTail(st.map_[f], st.map_[h].code)
    requires data != [] ==>
      pos + |data| < TWO_64 && st.map_[f].index < pos / B && LastBlock(pos, |data|, B) < TWO_32
    ensures |r.map_| == |r.blocks| == |st.map_| && r.map_[f] == st.map_[f] && r.blocks[f] == st.blocks[f]
    decreases |data|
  {
    if data != [] {
      var d, rest, pos1 := SplitChunk(pos, data, B);
      var st1, n := TurnCounted(st, h, pos, data, r, d, rest, pos1, Tails(st.map_, st.map_[h].code), B);
      TurnBlocks(pos, |data|, |d|, pos1, |rest|, B);
      StepSpares(st, h, pos, d, f, B);
      LoopSpares(st1, r, h, pos1, rest, f, B);
    }
  }

  /** Zeros laid over zeros, or over nothing, are zeros. */
  lemma MergedZero(o: Option<seq<byte>>, off: nat, d: seq<byte>, B: nat)
    requires off + |d| <= B && (o.Some? ==> o.value == Zeros(B)) && AllZero(d)
    ensures Merged(o, off, d, B) == Zeros(B)
  {
    if o.Some? {
      MergedSome(Zeros(B), off, d, B);
    } else {
      MergedNone(off, d, B);
    }
  }

  /** Slot f is free or its block is all zeros. */
  ghost predicate Dull(st: Store, f: nat, B: nat)
  {
    Shaped(st, B) && f < |st.map_| && (Free(st.map_[f]) || st.blocks[f] == Zeros(B))
  }

  /** A chunk of zeros leaves it so. */
  lemma StepDull(st: Store, h: nat, pos: nat, d: seq<byte>, f: nat, B: nat)
    requires Valid(st, B) && LiveHead(st.map_, h) && pos / B >= 1 && pos % B + |d| <= B
    requires f != h && Dull(st, f, B) && AllZero(d)
    ensures Dull(WriteStep(st, h, pos, d, B), f, B)
  {
    var c, x, g := st.map_[h].code, pos / B % TWO_32, FreeFrom(st.map_, st.hint);
    var k := Find(st.map_, c, x);
    if k < |st.map_| {
      StepFound(st, h, pos, k, d, Merged(Some(st.blocks[k]), pos % B, d, B), B);
      if k == f {
        MergedZero(Some(st.blocks[k]), pos % B, d, B);
      }
    } else if g < |st.map_| {
      StepTaken(st, h, pos, g, d, Merged(None, pos % B, d, B), B);
      MergedZero(None, pos % B, d, B);
    } else {
      StepFails(st, h, pos, d, B);
    }
  }

  lemma {:induction false} LoopDull(st: Store, r: Store, h: nat, pos: nat, data: seq<byte>, f: nat, B: nat)
    requires Valid(st, B) && LiveHead(st.map_, h) && LoopEnds(st, h, pos, data, B, r)
    requires f != h && Dull(st, f, B) && AllZero(data) && (data != [] ==> B <= pos && pos + |data| < TWO_64)
    ensures Dull(r, f, B)
    decreases |data|
  {
    if data != [] {
      var d, rest, pos1 := SplitChunk(pos, data, B);
      var st1, n := TurnCounted(st, h, pos, data, r, d, rest, pos1, Tails(st.map_, st.map_[h].code), B);
      ZeroParts(d, rest, data);
      DivLess(pos, B, 1);
      StepDull(st, h, pos, d, f, B);
      LoopDull(st1, r, h, pos1, rest, f, B);
    }
  }

  lemma ZeroParts(d: seq<byte>, rest: seq<byte>, data: seq<byte>)
    requires data == d + rest && AllZero(data)
    ensures AllZero(d) && AllZero(rest)
  {
    assert d == data[..|d|] && rest == data[|d|..];
  }

  /** What a fresh block holds at the place where the first write ends. */
  lemma FreshByte(off: nat, a: seq<byte>, b: seq<byte>, B: nat)
    requires off + |a| + |b| <= B && b != [] && b[0] == 1
    ensures Merged(None, off, a + b, B)[off + |a|] == 1 && Merged(None, off + |a|, b, B)[off + |a|] == 1
    ensures Merged(None, off, a, B)[off + |a|] == 0
  {
    MergedNone(off, a + b, B);
    MergedNone(off + |a|, b, B);
    MergedNone(off, a, B);
  }

  /** Slot f holds a data block of the file at h, with number i and byte v at place k. */
  ghost predicate Marked(st: Store, h: nat, f: nat, i: nat, k: nat, v: byte, B: nat)
  {
    && Shaped(st, B) && h < |st.map_| && f < |st.map_| && k < B
    && IsTail(st.map_[f], st.map_[h].code) && st.map_[f].index == i && st.blocks[f][k] == v
  }

  /** So it does after a write into later blocks. */
  lemma LoopMarked(st: Store, r: Store, h: nat, pos: nat, data: seq<byte>, f: nat, i: nat, k: nat, v: byte, B: nat)
    requires Valid(st, B) && LiveHead(st.map_, h) && LoopEnds(st, h, pos, data, B, r) && Marked(st, h, f, i, k, v, B)
    requires data != [] ==> pos + |data| < TWO_64 && i < pos / B && LastBlock(pos, |data|, B) < TWO_32
    ensures Marked(r, h, f, i, k, v, B)
  {
    LoopSpares(st, r, h, pos, data, f, B);
    LoopSound(st, r, h, pos, data, B);
  }

  lemma MarkedApart(r: Store, r': Store, h: nat, f: nat, i: nat, k: nat, B: nat)
    requires Valid(r, B) && LiveHead(r.map_, h) && Marked(r, h, f, i, k, 1, B)
    requires Dull(r', f, B) || Marked(r', h, f, i, k, 0, B)
    ensures !SameOffHead(r, r', h) && !SameOffHead(r', r, h)
  {
  }

  /** The later blocks of a write that ends in the block of p3 or goes on behind it. */
  ghost predicate Behind(p3: nat, rest: seq<byte>, x: nat, B: nat)
  {
    B > 0 && (rest != [] ==> p3 / B == x + 1 && p3 + |rest| < TWO_64 && LastBlock(p3, |rest|, B) < TWO_32)
  }

  /** Two writes against one from the shared block on: s before it, s1 after the first write, s2 after the
      second one's first chunk, s' after the one write's chunk, rb and r in the end. */
  ghost predicate Shared(s: Store, s1: Store, s2: Store, s': Store, h: nat, x: nat, p1: nat, p2: nat, p3: nat,
                         a: seq<byte>, b: seq<byte>, rest: seq<byte>, rb: Store, r: Store, B: nat)
  {
    && Soundly(s, s1, h, B) && 1 <= x == p1 / B == p2 / B && x < TWO_32 && B <= p3
    && p2 % B == p1 % B + |a| && p2 % B + |b| <= B && b != [] && Behind(p3, rest, x, B)
    && s1 == WriteStep(s, h, p1, a, B) && s2 == WriteStep(s1, h, p2, b, B) && s' == WriteStep(s, h, p1, a + b, B)
    && LoopEnds(s2, h, p3, rest, B, rb) && LoopEnds(s', h, p3, rest, B, r)
  }

  /** The data that tell the two apart: zeros, but for the second write's first byte. */
  ghost predicate Telling(b: seq<byte>, rest: seq<byte>) { b != [] && b[0] == 1 && AllZero(rest) }

  /** A slot that a chunk takes for block i at place off of its data. */
  lemma TakenMarked(s: Store, h: nat, pos: nat, d: seq<byte>, f: nat, i: nat, k: nat, v: byte, B: nat)
    returns (r: Store)
    requires Valid(s, B) && LiveHead(s.map_, h) && pos / B >= 1 && pos % B + |d| <= B && k < B
    requires !Has(s.map_, s.map_[h].code, pos / B % TWO_32) && f == FreeFrom(s.map_, s.hint) < |s.map_|
    requires i == Tails(s.map_, s.map_[h].code) + 1 && v == Merged(None, pos % B, d, B)[k]
    ensures r == WriteStep(s, h, pos, d, B) && Soundly(s, r, h, B) && Marked(r, h, f, i, k, v, B)
    ensures Tails(r.map_, s.map_[h].code) == i
  {
    var n;
    r, n := StepAny(s, h, pos, d, B);
    StepTaken(s, h, pos, f, d, Merged(None, pos % B, d, B), B);
    NextSlotExtends(s.map_, h, f);
  }

  /** The first write finds no slot for the shared block, the second one does. */
  lemma ApartFailed(s: Store, s1: Store, s2: Store, s': Store, h: nat, x: nat, p1: nat, p2: nat, p3: nat,
                    a: seq<byte>, b: seq<byte>, rest: seq<byte>, rb: Store, r: Store, B: nat)
    requires Shared(s, s1, s2, s', h, x, p1, p2, p3, a, b, rest, rb, r, B) && Telling(b, rest)
    requires !Has(s.map_, s.map_[h].code, x) && FreeFrom(s.map_, s.hint) == |s.map_| && FreeCount(s.map_, 0) > 0
    ensures !SameOffHead(rb, r, h)
  {
    hide Inv, WriteLoop, WriteStep, Merged, Has, Tails;
    var f, i := FreeFrom(s.map_, 0), Tails(s.map_, s.map_[h].code) + 1;
    FreeCountFrom(s.map_, 0);
    StepFails(s, h, p1, a, B);
    StepFails(s, h, p1, a + b, B);
    FreshByte(p1 % B, a, b, B);
    Reached(s.map_, h, x);
    var t := TakenMarked(s1, h, p2, b, f, i, p2 % B, 1, B);
    LoopMarked(s2, rb, h, p3, rest, f, i, p2 % B, 1, B);
    LoopDull(s', r, h, p3, rest, f, B);
    LoopSound(s2, rb, h, p3, rest, B);
    MarkedApart(rb, r, h, f, i, p2 % B, B);
  }

  /** The first write gets a slot for the shared block, but under another number. */
  lemma ApartAstray(s: Store, s1: Store, s2: Store, s': Store, h: nat, x: nat, p1: nat, p2: nat, p3: nat,
                    a: seq<byte>, b: seq<byte>, rest: seq<byte>, rb: Store, r: Store, B: nat)
    requires Shared(s, s1, s2, s', h, x, p1, p2, p3, a, b, rest, rb, r, B) && Telling(b, rest)
    requires !Has(s.map_, s.map_[h].code, x) && !Has(s1.map_, s.map_[h].code, x)
    requires FreeFrom(s.map_, s.hint) < |s.map_|
    ensures !SameOffHead(rb, r, h)
  {
    hide Inv, WriteLoop, WriteStep, Merged, Has, Tails;
    var f, i, k := FreeFrom(s.map_, s.hint), Tails(s.map_, s.map_[h].code) + 1, p2 % B;
    FreshByte(p1 % B, a, b, B);
    var t := TakenMarked(s, h, p1, a, f, i, k, 0, B);
    var t' := TakenMarked(s, h, p1, a + b, f, i, k, 1, B);
    Reached(s1.map_, h, x);
    StepSpares(s1, h, p2, b, f, B);
    var t2, n := StepAny(s1, h, p2, b, B);
    LoopMarked(s2, rb, h, p3, rest, f, i, k, 0, B);
    LoopMarked(s', r, h, p3, rest, f, i, k, 1, B);
    LoopSound(s', r, h, p3, rest, B);
    MarkedApart(r, rb, h, f, i, k, B);
  }

  lemma PartedBehind(p: Parts, pos: nat, a: seq<byte>, b: seq<byte>, p1: nat, p2: nat, p3: nat, n: nat,
                     x: nat, B: nat)
    requires Parted(p, pos, a, b, p1, p2, p3, B) && x == p2 / B && p2 == pos + |a| && n == |a| + |b| && pos + n < TWO_64
    requires B > 0 && n > 0 && LastBlock(pos, n, B) < TWO_32
    ensures x < TWO_32 && Behind(p3, p.b1, x, B) && p2 % B + |p.b0| <= B
  {
    DivMono(p2, pos + n - 1, B);
    if p.b1 != [] {
      NextChunk(p2, |p.b0|, B);
      assert p3 + |p.b1| - 1 == pos + n - 1;
    }
  }

  /** Off the condition, the shared block is missing before and after the first write, and a slot is free. */
  lemma SharedMissing(st: Store, h: nat, pos: nat, a: seq<byte>, b: seq<byte>, pos': nat, ra: Store, c: Fcode, x: nat,
                      p: Parts, p1: nat, p3: nat, s: Store, B: nat)
    requires Valid(st, B) && LiveHead(st.map_, h) && c == st.map_[h].code && a != [] && B <= pos
    requires pos' == pos + |a| < TWO_64 && pos' % B != 0 && x == pos' / B < TWO_32
    requires LoopEnds(st, h, pos, a, B, ra) && ComesTo(st, h, pos, p, p1, s, ra, B)
    requires Parted(p, pos, a, b, p1, pos', p3, B)
    requires !Seamless(st.map_, st.hint, h, pos, |a|, B)
    ensures x >= 1 && !Has(s.map_, c, x) && !Has(ra.map_, c, x) && FreeCount(s.map_, 0) > 0
  {
    hide Inv, WriteLoop, WriteStep, Grow, Tails, Find, ComesTo, Parted, Seamless, LoopEnds;
    var y, t := SharedFacts(st, h, pos, a, b, pos', ra, c, x, p, p1, p3, s, B);
    SeamlessInside(st.map_, st.hint, h, pos, |a|, y, t, x, B);
    Reached(ra.map_, h, x);
    Reached(s.map_, h, x);
  }

  /** Off the condition, data that tell the two apart leave different stores. */
  lemma LoopsApart(st: Store, h: nat, pos: nat, a: seq<byte>, b: seq<byte>, pos': nat, ra: Store, rb: Store, r: Store,
                   n: nat, x: nat, B: nat)
    requires ThreeLoops(st, h, pos, a, b, pos', ra, rb, r, B) && x == pos' / B
    requires n == |a| + |b| && n > 0 && LastBlock(pos, n, B) < TWO_32
    requires !Seamless(st.map_, st.hint, h, pos, |a|, B) && b[0] == 1 && AllZero(b[1..])
    ensures !SameOffHead(rb, r, h)
  {
    hide Inv, Shaped, WriteLoop, WriteStep, Shared, Free, Grow, Tails, FreeCount;
    var p, p1, p3, s := Entered(st, h, pos, a, b, pos', ra, rb, r, B);
    PartedBehind(p, pos, a, b, p1, pos', p3, n, x, B);
    SharedMissing(st, h, pos, a, b, pos', ra, st.map_[h].code, x, p, p1, p3, s, B);
    var s2, s' := SharedRun(st, h, pos, a, b, pos', ra, rb, r, x, p, p1, p3, s, B);
    ZeroParts(p.b0[1..], p.b1, b[1..]);
    if FreeFrom(s.map_, s.hint) < |s.map_| {
      ApartAstray(s, ra, s2, s', h, x, p1, pos', p3, p.a1, p.b0, p.b1, rb, r, B);
    } else {
      ApartFailed(s, ra, s2, s', h, x, p1, pos', p3, p.a1, p.b0, p.b1, rb, r, B);
    }
  }

  lemma SharedRun(st: Store, h: nat, pos: nat, a: seq<byte>, b: seq<byte>, pos': nat, ra: Store, rb: Store, r: Store,
                  x: nat, p: Parts, p1: nat, p3: nat, s: Store, B: nat) returns (s2: Store, s': Store)
    requires ThreeLoops(st, h, pos, a, b, pos', ra, rb, r, B) && 1 <= x == pos' / B < TWO_32
    requires Parted(p, pos, a, b, p1, pos', p3, B) && ComesTo(st, h, pos, p, p1, s, ra, B)
    requires Behind(p3, p.b1, x, B) && pos' % B + |p.b0| <= B
    ensures Shared(s, ra, s2, s', h, x, p1, pos', p3, p.a1, p.b0, p.b1, rb, r, B)
  {
    s2, s' := WriteStep(ra, h, pos', p.b0, B), WriteStep(s, h, p1, p.a1 + p.b0, B);
    TwoWrites(st, h, pos, a, b, p, p1, pos', p3, s, ra, s2, ra, rb, B);
    OneWrite(st, h, pos, a + b, p, p1, pos', p3, p.a1 + p.b0, s, s', r, B);
  }

  // ---------------------------------------------------------------- whole writes

  /** o is the outcome of writing data at pos. */
  ghost predicate IsWrite(st: Store, h: nat, pos: nat, data: seq<byte>, now: Clock, o: Outcome, B: nat)
  {
    && Shaped(st, B) && h < |st.map_| && B >= META_SIZE && Ticks(now)
    && o == WriteFile(st, h, pos, data, now, B)
  }

  /** A write to a writable file, and the loop without the time stamp. */
  lemma WriteAsLoop(st: Store, s: Store, h: nat, pos: nat, data: seq<byte>, now: Clock, o: Outcome, r: Store, B: nat)
    requires Open(st, h, pos, B) && !Flag(st.map_[h].attrs, READ_ONLY) && data != [] && pos + |data| < TWO_64
    requires IsWrite(st, h, pos, data, now, o, B) && SameOffHead(st, s, h) && LoopEnds(s, h, pos, data, B, r)
    ensures o.count == |data| && o.cursor == pos + |data| && SameOffHead(o.store, r, h)
    ensures Open(o.store, h, o.cursor, B) && o.store.map_[h] == st.map_[h]
  {
    WriteSome(st, h, pos, data, now, o, B);
    WriteConfined(st, h, pos, data, now, o, B);
    ConfinedHead(st, o.store, h);
    var st1 := StampHead(st, h, now, true, B);
    assert LoopEnds(st1, h, pos, data, B, o.store);
    LoopSame(st1, s, o.store, r, h, pos, data, B);
  }

  /** Writing a and then b amounts to writing a + b, but for the time stamp in the head block. */
  ghost predicate Joined(oa: Outcome, ob: Outcome, o: Outcome, h: nat)
  {
    SameOffHead(ob.store, o.store, h) && ob.cursor == o.cursor && oa.count + ob.count == o.count
  }

  ghost predicate ThreeWrites(st: Store, h: nat, pos: nat, a: seq<byte>, b: seq<byte>, t0: Clock, t1: Clock, t2: Clock,
                              oa: Outcome, ob: Outcome, o: Outcome, B: nat)
  {
    && Open(st, h, pos, B) && !Flag(st.map_[h].attrs, READ_ONLY) && a != [] && b != [] && pos + |a| + |b| < TWO_64
    && IsWrite(st, h, pos, a, t0, oa, B) && IsWrite(oa.store, h, oa.cursor, b, t1, ob, B)
    && IsWrite(st, h, pos, a + b, t2, o, B)
  }

  /** The three writes, as three loops. */
  lemma WritesAsLoops(st: Store, h: nat, pos: nat, a: seq<byte>, b: seq<byte>, t0: Clock, t1: Clock, t2: Clock,
                      oa: Outcome, ob: Outcome, o: Outcome, B: nat) returns (ra: Store, rb: Store, r: Store)
    requires ThreeWrites(st, h, pos, a, b, t0, t1, t2, oa, ob, o, B)
    ensures ThreeLoops(st, h, pos, a, b, pos + |a|, ra, rb, r, B)
    ensures SameOffHead(ob.store, rb, h) && SameOffHead(o.store, r, h)
    ensures rb == r ==> Joined(oa, ob, o, h)
    ensures !SameOffHead(rb, r, h) ==> !Joined(oa, ob, o, h)
  {
    hide Inv, WriteFile, WriteLoop, Tails, FreeCount, SameOffHead;
    ra := WriteLoop(st, h, pos, a, B);
    rb := WriteLoop(ra, h, pos + |a|, b, B);
    r := WriteLoop(st, h, pos, a + b, B);
    SameRefl(st, h);
    SameRefl(r, h);
    WriteAsLoop(st, st, h, pos, a, t0, oa, ra, B);
    WriteAsLoop(oa.store, ra, h, pos + |a|, b, t1, ob, rb, B);
    WriteAsLoop(st, st, h, pos, a + b, t2, o, r, B);
    SameSquare(ob.store, o.store, rb, r, h);
  }

  /** On the condition, two writes amount to one. */
  lemma Joins(st: Store, h: nat, pos: nat, a: seq<byte>, b: seq<byte>, t0: Clock, t1: Clock, t2: Clock,
              oa: Outcome, ob: Outcome, o: Outcome, c: Fcode, n: nat, x: nat, B: nat)
    requires ThreeWrites(st, h, pos, a, b, t0, t1, t2, oa, ob, o, B) && B > 0 && n == |a|
    requires c == st.map_[h].code && x == (pos + n) / B && Seamless(st.map_, st.hint, h, pos, n, B)
    requires (pos + n) % B == 0 || x < TWO_32
             || (pos / B <= Tails(st.map_, c) + 1 && x <= Tails(st.map_, c) + FreeCount(st.map_, st.hint))
    ensures Joined(oa, ob, o, h)
  {
    hide *;
    var ra, rb, r := WritesAsLoops(st, h, pos, a, b, t0, t1, t2, oa, ob, o, B);
    LoopsAlike(st, h, pos, a, b, pos + n, ra, rb, r, c, x, B);
  }

  /** Off the condition, the telling data are not written alike. */
  lemma Differ(st: Store, h: nat, pos: nat, a: seq<byte>, b: seq<byte>, t0: Clock, t1: Clock, t2: Clock,
               oa: Outcome, ob: Outcome, o: Outcome, n: nat, x: nat, B: nat)
    requires ThreeWrites(st, h, pos, a, b, t0, t1, t2, oa, ob, o, B) && B > 0
    requires n == |a| + |b| && n > 0 && LastBlock(pos, n, B) < TWO_32 && x == (pos + |a|) / B
    requires !Seamless(st.map_, st.hint, h, pos, |a|, B) && b[0] == 1 && AllZero(b[1..])
    ensures !Joined(oa, ob, o, h)
  {
    hide *;
    var ra, rb, r := WritesAsLoops(st, h, pos, a, b, t0, t1, t2, oa, ob, o, B);
    LoopsApart(st, h, pos, a, b, pos + |a|, ra, rb, r, n, x, B);
  }

  /** Two accepted writes amount to one. */
  lemma WriteSplit(st: Store, h: nat, pos: nat, a: seq<byte>, b: seq<byte>, ab: seq<byte>,
                   t0: Clock, t1: Clock, t2: Clock, oa: Outcome, ob: Outcome, o: Outcome, B: nat)
    requires Accepted(st, h, pos, ab, B) && a != [] && b != [] && ab == a + b
    requires IsWrite(st, h, pos, a, t0, oa, B) && IsWrite(oa.store, h, oa.cursor, b, t1, ob, B)
    requires IsWrite(st, h, pos, ab, t2, o, B)
    ensures SameOffHead(ob.store, o.store, h) && ob.cursor == o.cursor && oa.count + ob.count == o.count
  {
    hide WriteLoop, WriteFile, Inv, SameOffHead, Tails, FreeCount, Grow;
    DivMod(pos + |a|, B);
    var c, x := st.map_[h].code, (pos + |a|) / B;
    DivMono(pos + |a|, pos + |ab| - 1, B);
    Joins(st, h, pos, a, b, t0, t1, t2, oa, ob, o, c, |a|, x, B);
  }

  /** Two writes that meet at a block boundary amount to one, whether or not they find slots. */
  lemma AlignedSplit(st: Store, h: nat, pos: nat, a: seq<byte>, b: seq<byte>, t0: Clock, t1: Clock, t2: Clock,
                     oa: Outcome, ob: Outcome, o: Outcome, B: nat)
    requires ThreeWrites(st, h, pos, a, b, t0, t1, t2, oa, ob, o, B) && (pos + |a|) % B == 0
    ensures Joined(oa, ob, o, h)
  {
    hide WriteLoop, WriteFile, Inv, Joined, SameOffHead, Tails, FreeCount, Grow;
    Joins(st, h, pos, a, b, t0, t1, t2, oa, ob, o, st.map_[h].code, |a|, (pos + |a|) / B, B);
  }

  /** Two writes of na and nb bytes amount to one, whatever the bytes, exactly when they meet at a block
      boundary, or the first one is stored as it should be, or no slot is free any more when it comes to
      the block the two share. */
  lemma SplitExactly(st: Store, h: nat, pos: nat, na: nat, nb: nat, t0: Clock, t1: Clock, t2: Clock, B: nat)
    requires Open(st, h, pos, B) && !Flag(st.map_[h].attrs, READ_ONLY) && Ticks(t0) && Ticks(t1) && Ticks(t2)
    requires na > 0 && nb > 0 && pos + na + nb < TWO_64 && LastBlock(pos, na + nb, B) < TWO_32
    ensures Seamless(st.map_, st.hint, h, pos, na, B) <==>
            forall a: seq<byte>, b: seq<byte>, oa, ob, o ::
              |a| == na && |b| == nb && ThreeWrites(st, h, pos, a, b, t0, t1, t2, oa, ob, o, B) ==> Joined(oa, ob, o, h)
  {
    hide Shaped, Inv, Free, WriteLoop, WriteFile, ThreeWrites, Joined, Seamless, Grow, Tails, FreeCount;
    var c, n, x := st.map_[h].code, na + nb, (pos + na) / B;
    DivMono(pos + na, pos + n - 1, B);
    if Seamless(st.map_, st.hint, h, pos, na, B) {
      forall a: seq<byte>, b: seq<byte>, oa, ob, o
        | |a| == na && |b| == nb && ThreeWrites(st, h, pos, a, b, t0, t1, t2, oa, ob, o, B)
        ensures Joined(oa, ob, o, h)
      {
        Joins(st, h, pos, a, b, t0, t1, t2, oa, ob, o, c, na, x, B);
      }
    } else {
      var a := Zeros(na);
      var b := TellingData(nb);
      var oa, ob, o := Outcomes(st, h, pos, a, b, t0, t1, t2, B);
      Differ(st, h, pos, a, b, t0, t1, t2, oa, ob, o, n, x, B);
    }
  }

  lemma TellingData(n: nat) returns (b: seq<byte>)
    requires n > 0
    ensures |b| == n && b[0] == 1 && AllZero(b[1..])
  {
    b := [1] + Zeros(n - 1);
    assert b[1..] == Zeros(n - 1);
  }

  lemma Outcomes(st: Store, h: nat, pos: nat, a: seq<byte>, b: seq<byte>, t0: Clock, t1: Clock, t2: Clock, B: nat)
    returns (oa: Outcome, ob: Outcome, o: Outcome)
    requires Open(st, h, pos, B) && !Flag(st.map_[h].attrs, READ_ONLY) && Ticks(t0) && Ticks(t1) && Ticks(t2)
    requires a != [] && b != [] && pos + |a| + |b| < TWO_64
    ensures ThreeWrites(st, h, pos, a, b, t0, t1, t2, oa, ob, o, B)
  {
    oa, o := WriteFile(st, h, pos, a, t0, B), WriteFile(st, h, pos, a + b, t2, B);
    var ra := WriteLoop(st, h, pos, a, B);
    WriteAsLoop(st, st, h, pos, a, t0, oa, ra, B);
    ob := WriteFile(oa.store, h, oa.cursor, b, t1, B);
  }
}
