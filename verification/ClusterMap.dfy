/** The cluster map (fsblock slots of frat.h) and the operations frat.c runs on it. */
module ClusterMap {
  import opened Arith

  /** A 128-bit file code with its top 16 bits masked off. */
  datatype Fcode = Fcode(low: nat, high: nat)

  /** The code of an unallocated slot. */
  const NO_FILE: Fcode := Fcode(0, 0)

  datatype Slot = Slot(code: Fcode, attrs: bv16, index: nat)

  const DIRECTORY: bv16 := 0x01
  const READ_ONLY: bv16 := 0x02
  const METADATA: bv16 := 0x04
  const PROXY: bv16 := 0x08
  const EXTENSION: bv16 := 0x10

  /** flagcheck */
  predicate Flag(attrs: bv16, f: bv16) { attrs & f == f }

  predicate Free(s: Slot) { s.code == NO_FILE }

  predicate Is(s: Slot, c: Fcode, x: nat) { s.code == c && s.index == x }

  type Slots = seq<Slot>

  // ---------------------------------------------------------------- scans

  /** __ffindhi from slot k on: the least slot holding block x of file c, |m| if there is none. */
  function FindFrom(m: Slots, c: Fcode, x: nat, k: nat): (r: nat)
    requires k <= |m|
    ensures k <= r <= |m|
    ensures r < |m| ==> Is(m[r], c, x)
    decreases |m| - k
  {
    if k == |m| || Is(m[k], c, x) then k else FindFrom(m, c, x, k + 1)
  }

  function Find(m: Slots, c: Fcode, x: nat): (r: nat)
    ensures r <= |m|
    ensures r < |m| ==> Is(m[r], c, x)
  {
    FindFrom(m, c, x, 0)
  }

  predicate Has(m: Slots, c: Fcode, x: nat) { Find(m, c, x) < |m| }

  /** allocatecluster's scan: the least free slot at or above k, |m| if there is none. */
  function FreeFrom(m: Slots, k: nat): (r: nat)
    ensures r <= |m|
    ensures r < |m| ==> k <= r && Free(m[r])
    decreases |m| - k
  {
    if k >= |m| then |m| else if Free(m[k]) then k else FreeFrom(m, k + 1)
  }

  /** Next fit: no free slot is passed over. */
  lemma {:induction false} FreeFromLeast(m: Slots, k: nat, j: nat)
    requires k <= j < |m| && Free(m[j])
    ensures FreeFrom(m, k) <= j
    decreases |m| - k
  {
    if !Free(m[k]) {
      FreeFromLeast(m, k + 1, j);
    }
  }

  /** The number of free slots at or above k. */
  function FreeCount(m: Slots, k: nat): nat
    decreases |m| - k
  {
    if k >= |m| then 0 else (if Free(m[k]) then 1 else 0) + FreeCount(m, k + 1)
  }

  /** The slots of file c; what __faddr counts to number a new block. */
  function Members(m: Slots, c: Fcode): nat
  {
    if m == [] then 0
    else Members(m[..|m| - 1], c) + (if m[|m| - 1].code == c then 1 else 0)
  }

  predicate IsTail(s: Slot, c: Fcode) { s.code == c && s.index != 0 }

  /** The number of data blocks of file c. */
  function Tails(m: Slots, c: Fcode): nat
  {
    if m == [] then 0
    else Tails(m[..|m| - 1], c) + (if IsTail(m[|m| - 1], c) then 1 else 0)
  }

  lemma {:induction false} FindFromLeast(m: Slots, c: Fcode, x: nat, i: nat, k: nat)
    requires i <= k < |m| && Is(m[k], c, x)
    ensures FindFrom(m, c, x, i) <= k
    decreases |m| - i
  {
    if !Is(m[i], c, x) {
      FindFromLeast(m, c, x, i + 1, k);
    }
  }

  /** No earlier match is passed over. */
  lemma FindAny(m: Slots, c: Fcode, x: nat, k: nat)
    requires k < |m| && Is(m[k], c, x)
    ensures Find(m, c, x) <= k
  {
    FindFromLeast(m, c, x, 0, k);
  }

  /** Find looks only at which slots match. */
  lemma FindSame(m: Slots, m': Slots, c: Fcode, x: nat)
    requires |m| == |m'|
    requires forall k :: 0 <= k < |m| ==> (Is(m[k], c, x) <==> Is(m'[k], c, x))
    ensures Find(m, c, x) == Find(m', c, x)
  {
    var r, r' := Find(m, c, x), Find(m', c, x);
    if r < |m| {
      FindAny(m', c, x, r);
    }
    if r' < |m| {
      FindAny(m, c, x, r');
    }
  }

  lemma {:induction false} TailsBound(m: Slots, c: Fcode)
    ensures Tails(m, c) <= |m|
  {
    if m != [] {
      TailsBound(m[..|m| - 1], c);
    }
  }

  /** Rewriting one slot moves the two counts by that slot alone. */
  lemma {:induction false} CountUpdate(m: Slots, k: nat, s: Slot, c: Fcode)
    requires k < |m|
    ensures Tails(m[k := s], c)
            == Tails(m, c) - (if IsTail(m[k], c) then 1 else 0) + (if IsTail(s, c) then 1 else 0)
    ensures Members(m[k := s], c)
            == Members(m, c) - (if m[k].code == c then 1 else 0) + (if s.code == c then 1 else 0)
  {
    var n := |m| - 1;
    if k == n {
      assert m[k := s][..n] == m[..n];
    } else {
      assert m[k := s][..n] == m[..n][k := s];
      CountUpdate(m[..n], k, s, c);
    }
  }

  /** The scan for a free slot and the count of free slots agree. */
  lemma {:induction false} FreeCountFrom(m: Slots, k: nat)
    ensures FreeFrom(m, k) == |m| <==> FreeCount(m, k) == 0
    ensures FreeFrom(m, k) < |m| ==> FreeCount(m, FreeFrom(m, k)) == FreeCount(m, k)
    decreases |m| - k
  {
    if k < |m| && !Free(m[k]) {
      FreeCountFrom(m, k + 1);
    }
  }

  lemma {:induction false} FreeCountAbove(m: Slots, m': Slots, k: nat)
    requires |m| == |m'| && forall j :: k <= j < |m| ==> m[j] == m'[j]
    ensures FreeCount(m, k) == FreeCount(m', k)
    decreases |m| - k
  {
    if k < |m| {
      FreeCountAbove(m, m', k + 1);
    }
  }

  /** Filling the slot the scan finds uses up exactly one of the free slots it could reach. */
  lemma FillFirst(m: Slots, k: nat, s: Slot)
    requires FreeFrom(m, k) < |m| && !Free(s)
    ensures var f := FreeFrom(m, k); FreeCount(m[f := s], f) == FreeCount(m, k) - 1
  {
    var f := FreeFrom(m, k);
    FreeCountFrom(m, k);
    FreeCountAbove(m, m[f := s], f + 1);
  }

  // ---------------------------------------------------------------- the invariant

  /** A slot number of the map; the term that makes the invariants below speak of a slot. */
  ghost predicate At(m: Slots, k: int) { 0 <= k < |m| }

  /** No two slots hold the same block of the same file; in particular one head at most. */
  ghost predicate Unique(m: Slots)
  {
    forall i, j {:trigger At(m, i), At(m, j)} ::
      At(m, i) && At(m, j) && i != j && !Free(m[i]) && m[i].code == m[j].code ==> m[i].index != m[j].index
  }

  /** The data blocks of every file are numbered 1, 2, .. without a gap. */
  ghost predicate Dense(m: Slots)
  {
    forall c: Fcode, x: nat {:trigger Find(m, c, x)} ::
      c != NO_FILE && x >= 1 ==> (Find(m, c, x) < |m| <==> x <= Tails(m, c))
  }

  /** The metadata flag marks the heads. No slot, free ones included, carries the extension flag. */
  ghost predicate Flagged(m: Slots)
  {
    forall k {:trigger At(m, k)} :: At(m, k) ==>
      && !Flag(m[k].attrs, EXTENSION)
      && (!Free(m[k]) ==> (Flag(m[k].attrs, METADATA) <==> m[k].index == 0))
  }

  predicate Fits(c: Fcode) { c.low < TWO_64 && c.high < 0x1_0000_0000_0000 }

  /** Every field fits its bit-field. */
  ghost predicate Sized(m: Slots)
  {
    forall k {:trigger At(m, k)} :: At(m, k) ==> Fits(m[k].code) && m[k].index < TWO_32
  }

  ghost predicate Inv(m: Slots)
  {
    |m| < TWO_32 && Unique(m) && Dense(m) && Flagged(m) && Sized(m)
  }

  /** The map of a freshly formatted volume. */
  const BLANK: Slot := Slot(NO_FILE, 0, 0)

  function Empty(n: nat): Slots { seq(n, _ => BLANK) }

  lemma {:induction false} AllFreeNoTails(m: Slots, c: Fcode)
    requires c != NO_FILE && forall k :: 0 <= k < |m| ==> Free(m[k])
    ensures Tails(m, c) == 0
  {
    if m != [] {
      AllFreeNoTails(m[..|m| - 1], c);
    }
  }

  lemma EmptyInv(n: nat)
    requires n < TWO_32
    ensures Inv(Empty(n))
  {
    var m := Empty(n);
    forall c: Fcode, x: nat | c != NO_FILE && x >= 1
      ensures Find(m, c, x) < |m| <==> x <= Tails(m, c)
    {
      AllFreeNoTails(m, c);
    }
  }

  lemma UniquePrefix(m: Slots)
    requires Unique(m) && m != []
    ensures Unique(m[..|m| - 1])
  {
    var p := m[..|m| - 1];
    forall i, j | At(p, i) && At(p, j) && i != j && !Free(p[i]) && p[i].code == p[j].code
      ensures p[i].index != p[j].index
    {
      assert At(m, i) && At(m, j);
    }
  }

  /** A family counts its head, if it has one, and its data blocks. */
  lemma {:induction false} MembersSplit(m: Slots, c: Fcode)
    requires Unique(m) && c != NO_FILE
    ensures Members(m, c) == Tails(m, c) + (if Has(m, c, 0) then 1 else 0)
  {
    if m != [] {
      var n := |m| - 1;
      var p, r := m[..n], Find(m, c, 0);
      UniquePrefix(m);
      MembersSplit(p, c);
      if Find(p, c, 0) < n {
        FindAny(m, c, 0, Find(p, c, 0));
        assert At(m, Find(p, c, 0)) && At(m, n);
      } else if r < n {
        FindAny(p, c, 0, r);
      } else if Is(m[n], c, 0) {
        FindAny(m, c, 0, n);
      }
    }
  }

  /** Block x of a file is where Find says and nowhere else. */
  lemma FindUnique(m: Slots, c: Fcode, x: nat, k: nat)
    requires Unique(m) && c != NO_FILE && k < |m| && Is(m[k], c, x)
    ensures Find(m, c, x) == k
  {
    FindAny(m, c, x, k);
    assert At(m, Find(m, c, x)) && At(m, k);
  }

  // ---------------------------------------------------------------- steps on one slot

  /** Storing block x of file c in a free slot. */
  lemma PlaceFind(m: Slots, k: nat, s: Slot, c: Fcode, x: nat)
    requires k < |m| && Free(m[k]) && c != NO_FILE
    ensures !Is(s, c, x) ==> Find(m[k := s], c, x) == Find(m, c, x)
    ensures Is(s, c, x) && !Has(m, c, x) ==> Find(m[k := s], c, x) == k
  {
    if !Is(s, c, x) {
      FindSame(m, m[k := s], c, x);
    } else if !Has(m, c, x) {
      FindAny(m[k := s], c, x, k);
      var r := Find(m[k := s], c, x);
      if r < k {
        FindAny(m, c, x, r);
      }
    }
  }

  lemma PlaceUnique(m: Slots, k: nat, s: Slot)
    requires Unique(m) && k < |m| && Free(m[k]) && !Has(m, s.code, s.index)
    ensures Unique(m[k := s])
  {
    var m' := m[k := s];
    forall i, j | At(m', i) && At(m', j) && i != j && !Free(m'[i]) && m'[i].code == m'[j].code
      ensures m'[i].index != m'[j].index
    {
      assert At(m, i) && At(m, j);
      var o := if i == k then j else i;
      if Is(m[o], s.code, s.index) {
        FindAny(m, s.code, s.index, o);
      }
    }
  }

  lemma PlaceDense(m: Slots, k: nat, s: Slot)
    requires Dense(m) && k < |m| && Free(m[k]) && !Free(s) && !Has(m, s.code, s.index)
    requires s.index == 0 || s.index == Tails(m, s.code) + 1
    ensures Dense(m[k := s])
  {
    var m' := m[k := s];
    forall c: Fcode, x: nat | c != NO_FILE && x >= 1
      ensures Find(m', c, x) < |m'| <==> x <= Tails(m', c)
    {
      CountUpdate(m, k, s, c);
      PlaceFind(m, k, s, c, x);
      assert Find(m, c, x) < |m| <==> x <= Tails(m, c);
    }
  }

  /** A free slot may take a new head, or the next data block of a file with a live head. */
  lemma PlaceInv(m: Slots, k: nat, s: Slot)
    requires Inv(m) && k < |m| && Free(m[k]) && !Free(s) && Fits(s.code)
    requires !Flag(s.attrs, EXTENSION) && (Flag(s.attrs, METADATA) <==> s.index == 0)
    requires !Has(m, s.code, s.index)
    requires s.index == 0 || s.index == Tails(m, s.code) + 1
    ensures Inv(m[k := s])
  {
    var m' := m[k := s];
    PlaceUnique(m, k, s);
    PlaceDense(m, k, s);
    assert s.index < TWO_32 by {
      CountUpdate(m, k, s, s.code);
      TailsBound(m', s.code);
    }
    forall j | At(m', j)
      ensures !Flag(m'[j].attrs, EXTENSION)
      ensures !Free(m'[j]) ==> (Flag(m'[j].attrs, METADATA) <==> m'[j].index == 0)
      ensures Fits(m'[j].code) && m'[j].index < TWO_32
    {
      assert At(m, j);
    }
  }

  /** From m to m' only free slots changed, each into a data block of c. */
  ghost predicate MapGrew(m: Slots, m': Slots, c: Fcode)
  {
    |m'| == |m| && forall k {:trigger At(m, k)} :: At(m, k) ==> m'[k] == m[k] || (Free(m[k]) && IsTail(m'[k], c))
  }

  lemma MapGrewTrans(m: Slots, m': Slots, m'': Slots, c: Fcode)
    requires c != NO_FILE && MapGrew(m, m', c) && MapGrew(m', m'', c)
    ensures MapGrew(m, m'', c)
  {
    forall k | At(m, k)
      ensures m''[k] == m[k] || (Free(m[k]) && IsTail(m''[k], c))
    {
      assert At(m', k);
    }
  }

  function Cleared(s: Slot): Slot { s.(code := NO_FILE) }

  /** Slots that are the same or newly free keep all but Dense. */
  lemma ClearedKeeps(m: Slots, m': Slots)
    requires Inv(m) && |m'| == |m|
    requires forall k :: 0 <= k < |m| ==> m'[k] == m[k] || m'[k] == Cleared(m[k])
    ensures Unique(m') && Flagged(m') && Sized(m')
  {
    forall i, j | At(m', i) && At(m', j) && i != j && !Free(m'[i]) && m'[i].code == m'[j].code
      ensures m'[i].index != m'[j].index
    {
      assert At(m, i) && At(m, j);
    }
    forall k | At(m', k)
      ensures !Flag(m'[k].attrs, EXTENSION)
      ensures !Free(m'[k]) ==> (Flag(m'[k].attrs, METADATA) <==> m'[k].index == 0)
      ensures Fits(m'[k].code) && m'[k].index < TWO_32
    {
      assert At(m, k);
    }
  }

  /** Clearing a head leaves the data blocks of every file in place. */
  lemma ClearHeadInv(m: Slots, k: nat)
    requires Inv(m) && k < |m| && m[k].index == 0
    ensures Inv(m[k := Cleared(m[k])])
    ensures forall c: Fcode :: c != NO_FILE ==> Tails(m[k := Cleared(m[k])], c) == Tails(m, c)
  {
    var s := Cleared(m[k]);
    var m' := m[k := s];
    ClearedKeeps(m, m');
    forall c: Fcode | c != NO_FILE
      ensures Tails(m', c) == Tails(m, c)
    {
      CountUpdate(m, k, s, c);
    }
    forall c: Fcode, x: nat | c != NO_FILE && x >= 1
      ensures Find(m', c, x) < |m'| <==> x <= Tails(m', c)
    {
      FindSame(m, m', c, x);
      assert Find(m, c, x) < |m| <==> x <= Tails(m, c);
    }
  }

  /** __ffremovelh: every slot of the file is cleared. */
  function WithoutFamily(m: Slots, c: Fcode): (r: Slots)
    ensures |r| == |m|
    ensures forall k :: 0 <= k < |m| ==> r[k] == if m[k].code == c then Cleared(m[k]) else m[k]
  {
    seq(|m|, k requires 0 <= k < |m| => if m[k].code == c then Cleared(m[k]) else m[k])
  }

  lemma {:induction false} WithoutFamilyTails(m: Slots, c: Fcode, d: Fcode)
    requires c != NO_FILE && d != NO_FILE
    ensures Tails(WithoutFamily(m, c), d) == if d == c then 0 else Tails(m, d)
  {
    if m != [] {
      var n := |m| - 1;
      assert WithoutFamily(m, c)[..n] == WithoutFamily(m[..n], c);
      WithoutFamilyTails(m[..n], c, d);
    }
  }

  lemma WithoutFamilyInv(m: Slots, c: Fcode)
    requires Inv(m) && c != NO_FILE
    ensures Inv(WithoutFamily(m, c))
  {
    var m' := WithoutFamily(m, c);
    ClearedKeeps(m, m');
    forall d: Fcode, x: nat | d != NO_FILE && x >= 1
      ensures Find(m', d, x) < |m'| <==> x <= Tails(m', d)
    {
      WithoutFamilyTails(m, c, d);
      if d != c {
        FindSame(m, m', d, x);
        assert Find(m, d, x) < |m| <==> x <= Tails(m, d);
      }
    }
  }
}
