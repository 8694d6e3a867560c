/** Creating and removing files, and what every run of the filesystem keeps. */
module Runs {
  import opened Arith
  import opened ClusterMap
  import opened FileStore
  import opened Write
  import opened Limits
  import opened Files

  /** The parts of creation this model takes as given: the path hash, how many blocks a directory
      gains when an entry is put into it, and the metadata record of a new file. */
  datatype World = World(hash: string -> Fcode, gain: string -> nat, meta: string -> seq<byte>)

  ghost predicate Sensible(w: World, B: nat)
  {
    && B >= META_SIZE
    && (forall p: string :: w.hash(p) != NO_FILE && Fits(w.hash(p)))
    && (forall p: string :: |w.meta(p)| == META_SIZE)
  }

  /** The block __finit writes: the metadata record, padded. */
  function HeadBlock(w: World, path: string, B: nat): seq<byte>
    requires B >= META_SIZE
  {
    w.meta(path) + Zeros(B - META_SIZE)
  }

  /** The flag letters P, d, r and F. */
  datatype Flags = Flags(proxy: bool, directory: bool, readOnly: bool, force: bool)

  /** The flags a missing ancestor is created with. */
  const PARENT: Flags := Flags(false, true, false, false)

  predicate IsSeparator(c: char) { c == '/' || c == '\\' }

  /** __fgetparent: cut at the last separator that is not the first character. */
  function Cut(path: string, k: nat): (r: nat)
    requires k <= |path|
    ensures r <= k && (r > 0 ==> r < |path| && IsSeparator(path[r]))
  {
    if k == 0 then 0
    else if k < |path| && IsSeparator(path[k]) then k
    else Cut(path, k - 1)
  }

  function Parent(path: string): (r: Option<string>)
    ensures r.Some? ==> 0 < |r.value| < |path|
  {
    var k := Cut(path, |path|);
    if k == 0 then None else Some(path[..k])
  }

  /** The first k characters of path are a directory on the way to it: a separator follows them. */
  ghost predicate Stop(path: string, k: nat) { 0 < k < |path| && path[k] in "/\\" }

  ghost predicate Above(r: string, path: string) { Stop(path, |r|) && path[..|r|] == r }

  lemma {:induction false} CutLast(path: string, k: nat, j: nat)
    requires k <= |path| && j <= k && Stop(path, j)
    ensures j <= Cut(path, k)
    decreases k
  {
    if !(k < |path| && IsSeparator(path[k])) {
      CutLast(path, k - 1, j);
    }
  }

  /** The parent is the longest directory on the way, and there is none only if no separator follows the
      first character. */
  lemma ParentExactly(path: string)
    ensures forall r :: Parent(path) == Some(r) <==> Above(r, path) && forall q :: Above(q, path) ==> |q| <= |r|
    ensures Parent(path) == None <==> forall q :: !Above(q, path)
  {
    var k := Cut(path, |path|);
    forall q | Above(q, path)
      ensures |q| <= k
    {
      CutLast(path, |path|, |q|);
    }
    if k > 0 {
      assert Above(path[..k], path);
      forall r | Above(r, path) && forall q :: Above(q, path) ==> |q| <= |r|
        ensures r == path[..k]
      {
        assert |r| == k;
      }
    }
  }

  /** The attributes __fcreate leaves in a slot it takes: ORed into what the slot held before. */
  function HeadAttrs(old_: bv16, f: Flags): bv16
  {
    (if f.proxy then old_ | PROXY
     else old_ | (if f.directory then DIRECTORY else 0) | (if f.readOnly then READ_ONLY else 0)) | METADATA
  }

  /** n calls of __faddr on the family at h. */
  function Extend(st: Store, h: nat, n: nat, B: nat): (r: Store)
    requires Shaped(st, B) && h < |st.map_|
    ensures Shaped(r, B) && |r.map_| == |st.map_|
    decreases n
  {
    if n == 0 then st else Extend(AddBlock(st, h, B), h, n - 1, B)
  }

  /** __ffremove: the head is cleared, the data blocks keep their code. */
  function RemoveHead(st: Store, c: Fcode): Store
  {
    var k := Find(st.map_, c, 0);
    if k < |st.map_| then st.(map_ := st.map_[k := Cleared(st.map_[k])]) else st
  }

  function RemoveFamily(st: Store, c: Fcode): Store
  {
    st.(map_ := WithoutFamily(st.map_, c))
  }

  /** The slot an allocation takes is marked before anything else happens. */
  function Mark(st: Store, f: nat, c: Fcode, flags: Flags): Store
    requires f < |st.map_|
  {
    Store(st.map_[f := Slot(c, HeadAttrs(st.map_[f].attrs, flags), 0)], f, st.blocks)
  }

  /** __fcreate, with missing ancestors. Putting the entry into the parent counts as extend steps. */
  function Create(st: Store, path: string, flags: Flags, w: World, B: nat): (r: Store)
    requires Shaped(st, B) && Sensible(w, B)
    ensures Shaped(r, B) && |r.map_| == |st.map_|
    decreases |path|, 1
  {
    var c := w.hash(path);
    if Has(st.map_, c, 0) && !flags.force then st
    else
      var st0 := RemoveHead(st, c);
      var f := FreeFrom(st0.map_, st0.hint);
      if f == |st0.map_| then st0.(hint := 0)
      else
        var st1 := Enter(Mark(st0, f, c, flags), path, w, B);
        st1.(blocks := st1.blocks[f := HeadBlock(w, path, B)])
  }

  /** __fgetparent, floadhdir and __fdiradd for a file that has just been marked. */
  function Enter(st: Store, path: string, w: World, B: nat): (r: Store)
    requires Shaped(st, B) && Sensible(w, B)
    ensures Shaped(r, B) && |r.map_| == |st.map_|
    decreases |path|, 0
  {
    var up := Parent(path);
    if up.None? then st
    else
      var p, c := w.hash(up.value), w.hash(path);
      var st1 := if Has(st.map_, p, 0) then st else Create(st, up.value, PARENT, w, B);
      var h := Find(st1.map_, p, 0);
      if h < |st1.map_| && Flag(st1.map_[h].attrs, DIRECTORY) && p.low != c.low && p.high != c.high then
        Extend(st1, h, w.gain(up.value), B)
      else st1
  }

  // ---------------------------------------------------------------- what creation keeps

  /** Every slot in use in m is as it was. */
  ghost predicate Keeps(m: Slots, m': Slots)
  {
    |m'| == |m| && forall k {:trigger At(m, k)} :: At(m, k) && !Free(m[k]) ==> m'[k] == m[k]
  }

  lemma KeepsTrans(m: Slots, m': Slots, m'': Slots)
    requires Keeps(m, m') && Keeps(m', m'')
    ensures Keeps(m, m'')
  {
    forall k | At(m, k) && !Free(m[k])
      ensures m''[k] == m[k]
    {
      assert At(m', k);
    }
  }

  lemma AddBlockKeeps(st: Store, h: nat, B: nat)
    requires Valid(st, B) && LiveHead(st.map_, h)
    ensures Valid(AddBlock(st, h, B), B) && Keeps(st.map_, AddBlock(st, h, B).map_)
    ensures LiveHead(AddBlock(st, h, B).map_, h)
  {
    var f := FreeFrom(st.map_, st.hint);
    if f < |st.map_| {
      NextSlotExtends(st.map_, h, f);
    }
  }

  lemma {:induction false} ExtendKeeps(st: Store, h: nat, n: nat, B: nat)
    requires Valid(st, B) && LiveHead(st.map_, h)
    ensures Valid(Extend(st, h, n, B), B) && Keeps(st.map_, Extend(st, h, n, B).map_)
    decreases n
  {
    if n > 0 {
      var st1 := AddBlock(st, h, B);
      AddBlockKeeps(st, h, B);
      ExtendKeeps(st1, h, n - 1, B);
      KeepsTrans(st.map_, st1.map_, Extend(st, h, n, B).map_);
    }
  }

  lemma MarkKeeps(st: Store, f: nat, c: Fcode, flags: Flags, B: nat)
    requires Valid(st, B) && f < |st.map_| && Free(st.map_[f]) && c != NO_FILE && Fits(c) && !Has(st.map_, c, 0)
    ensures Valid(Mark(st, f, c, flags), B) && Keeps(st.map_, Mark(st, f, c, flags).map_)
  {
    assert At(st.map_, f);
    PlaceInv(st.map_, f, Slot(c, HeadAttrs(st.map_[f].attrs, flags), 0));
  }

  /** Removing a head leaves no head behind. */
  lemma RemoveHeadInv(st: Store, c: Fcode, B: nat)
    requires Valid(st, B) && c != NO_FILE
    ensures Valid(RemoveHead(st, c), B) && !Has(RemoveHead(st, c).map_, c, 0)
    ensures !Has(st.map_, c, 0) ==> RemoveHead(st, c) == st
  {
    var k := Find(st.map_, c, 0);
    if k < |st.map_| {
      ClearHeadInv(st.map_, k);
      var m' := st.map_[k := Cleared(st.map_[k])];
      var j := Find(m', c, 0);
      if j < |m'| {
        FindUnique(st.map_, c, 0, j);
      }
    }
  }

  /** Creation keeps the invariant and, beyond a head it was told to replace, every slot in use;
      the slot it takes for the file itself survives the creation of all its ancestors. */
  lemma {:induction false} CreateKeeps(st: Store, path: string, flags: Flags, w: World, B: nat)
    requires Valid(st, B) && Sensible(w, B)
    ensures Valid(Create(st, path, flags, w, B), B)
    ensures Keeps(RemoveHead(st, w.hash(path)).map_, Create(st, path, flags, w, B).map_)
            || Create(st, path, flags, w, B) == st
    ensures Has(st.map_, w.hash(path), 0) && !flags.force ==> Create(st, path, flags, w, B) == st
    ensures var c := w.hash(path);
      var st0 := RemoveHead(st, c);
      var f, r := FreeFrom(st0.map_, st0.hint), Create(st, path, flags, w, B);
      !(Has(st.map_, c, 0) && !flags.force) ==>
        if f < |st0.map_| then
          && r.map_[f] == Slot(c, HeadAttrs(st0.map_[f].attrs, flags), 0)
          && r.blocks[f] == HeadBlock(w, path, B)
        else r == st0.(hint := 0)
    decreases |path|, 1
  {
    var c := w.hash(path);
    if !(Has(st.map_, c, 0) && !flags.force) {
      var st0 := RemoveHead(st, c);
      RemoveHeadInv(st, c, B);
      var f := FreeFrom(st0.map_, st0.hint);
      if f < |st0.map_| {
        var st1 := Mark(st0, f, c, flags);
        MarkKeeps(st0, f, c, flags, B);
        EnterKeeps(st1, path, w, B);
        var st2 := Enter(st1, path, w, B);
        KeepsTrans(st0.map_, st1.map_, st2.map_);
        assert At(st1.map_, f);
        BlocksOnly(st2, f, HeadBlock(w, path, B), B);
      }
    }
  }

  lemma {:induction false} EnterKeeps(st: Store, path: string, w: World, B: nat)
    requires Valid(st, B) && Sensible(w, B)
    ensures Valid(Enter(st, path, w, B), B) && Keeps(st.map_, Enter(st, path, w, B).map_)
    decreases |path|, 0
  {
    var up := Parent(path);
    if up.Some? {
      var p, c := w.hash(up.value), w.hash(path);
      var st1 := if Has(st.map_, p, 0) then st else Create(st, up.value, PARENT, w, B);
      if !Has(st.map_, p, 0) {
        CreateKeeps(st, up.value, PARENT, w, B);
        RemoveHeadInv(st, p, B);
      }
      var h := Find(st1.map_, p, 0);
      if h < |st1.map_| {
        ExtendKeeps(st1, h, w.gain(up.value), B);
        KeepsTrans(st.map_, st1.map_, Extend(st1, h, w.gain(up.value), B).map_);
      }
    }
  }

  // ---------------------------------------------------------------- the missing ancestors

  /** The files with a head. */
  ghost function Heads(m: Slots): iset<Fcode>
  {
    iset c: Fcode | c != NO_FILE && Has(m, c, 0)
  }

  ghost predicate IsDirectory(m: Slots, c: Fcode)
  {
    Has(m, c, 0) && Flag(m[Find(m, c, 0)].attrs, DIRECTORY)
  }

  /** The ancestors of path that creation finds missing: upwards until one is known or just marked. */
  ghost function Ancestors(known: iset<Fcode>, path: string, w: World): seq<string>
    decreases |path|
  {
    var up := Parent(path);
    if up.None? || w.hash(up.value) in known then []
    else [up.value] + Ancestors(known + iset{w.hash(up.value)}, up.value, w)
  }

  ghost predicate AllDirectories(m: Slots, paths: seq<string>, w: World)
  {
    forall i :: 0 <= i < |paths| ==> IsDirectory(m, w.hash(paths[i]))
  }

  lemma AllDirectoriesCons(m: Slots, p: string, paths: seq<string>, w: World)
    ensures AllDirectories(m, [p] + paths, w) <==> IsDirectory(m, w.hash(p)) && AllDirectories(m, paths, w)
  {
    var all := [p] + paths;
    assert all[0] == p && all[1..] == paths;
    if AllDirectories(m, all, w) {
      forall i | 0 <= i < |paths|
        ensures IsDirectory(m, w.hash(paths[i]))
      {
        assert all[i + 1] == paths[i];
      }
    }
  }

  lemma MarkHeads(st: Store, f: nat, c: Fcode, flags: Flags, B: nat)
    requires Valid(st, B) && f < |st.map_| && Free(st.map_[f]) && c != NO_FILE && !Has(st.map_, c, 0)
    ensures Heads(Mark(st, f, c, flags).map_) == Heads(st.map_) + iset{c}
  {
    var s := Slot(c, HeadAttrs(st.map_[f].attrs, flags), 0);
    forall d: Fcode | d != NO_FILE
      ensures Has(st.map_[f := s], d, 0) <==> Has(st.map_, d, 0) || d == c
    {
      PlaceFind(st.map_, f, s, d, 0);
    }
  }

  /** A head is where it was. */
  ghost predicate SameHeads(m: Slots, m': Slots)
  {
    |m'| == |m| && forall c: Fcode {:trigger Find(m', c, 0)} :: c != NO_FILE ==>
      Find(m', c, 0) == Find(m, c, 0) && (Has(m, c, 0) ==> m'[Find(m, c, 0)] == m[Find(m, c, 0)])
  }

  lemma AddBlockHeads(st: Store, h: nat, B: nat)
    requires Valid(st, B) && LiveHead(st.map_, h)
    ensures SameHeads(st.map_, AddBlock(st, h, B).map_)
  {
    var f, s := FreeFrom(st.map_, st.hint), NextSlot(st.map_, h);
    if f < |st.map_| {
      NextSlotExtends(st.map_, h, f);
      forall c: Fcode | c != NO_FILE
        ensures Find(st.map_[f := s], c, 0) == Find(st.map_, c, 0)
        ensures Has(st.map_, c, 0) ==> Find(st.map_, c, 0) != f
      {
        PlaceFind(st.map_, f, s, c, 0);
      }
    }
  }

  lemma {:induction false} ExtendHeads(st: Store, h: nat, n: nat, B: nat)
    requires Valid(st, B) && LiveHead(st.map_, h)
    ensures SameHeads(st.map_, Extend(st, h, n, B).map_)
    decreases n
  {
    if n > 0 {
      AddBlockHeads(st, h, B);
      AddBlockKeeps(st, h, B);
      ExtendHeads(AddBlock(st, h, B), h, n - 1, B);
    }
  }

  lemma SameDirectories(m: Slots, m': Slots, paths: seq<string>, w: World, B: nat)
    requires SameHeads(m, m') && Sensible(w, B)
    ensures AllDirectories(m, paths, w) <==> AllDirectories(m', paths, w)
  {
    forall p: string
      ensures IsDirectory(m, w.hash(p)) <==> IsDirectory(m', w.hash(p))
    {
      assert w.hash(p) != NO_FILE;
      assert Find(m', w.hash(p), 0) == Find(m, w.hash(p), 0);
    }
  }

  /** A head that creation marks for an ancestor is a directory. */
  lemma MarkedDirectory(m: Slots, f: nat, c: Fcode, old_: bv16)
    requires Unique(m) && c != NO_FILE && f < |m| && m[f] == Slot(c, HeadAttrs(old_, PARENT), 0)
    ensures IsDirectory(m, c)
  {
    FindUnique(m, c, 0, f);
  }

  /** Creation that is not told to leave an existing file alone: the file and all its missing ancestors, as
      directories, exist afterwards exactly when as many slots are free at or above the hint. */
  lemma {:induction false} CreateClimbs(st: Store, path: string, flags: Flags, w: World, st0: Store, B: nat)
    requires Valid(st, B) && Sensible(w, B) && !(Has(st.map_, w.hash(path), 0) && !flags.force)
    requires st0 == RemoveHead(st, w.hash(path))
    ensures var c, r := w.hash(path), Create(st, path, flags, w, B);
      var up := Ancestors(Heads(st0.map_) + iset{c}, path, w);
      Has(r.map_, c, 0) && AllDirectories(r.map_, up, w) <==> 1 + |up| <= FreeCount(st0.map_, st0.hint)
    decreases |path|, 1
  {
    var c, r := w.hash(path), Create(st, path, flags, w, B);
    var f := FreeFrom(st0.map_, st0.hint);
    RemoveHeadInv(st, c, B);
    FreeCountFrom(st0.map_, st0.hint);
    if f < |st0.map_| {
      var st1 := Mark(st0, f, c, flags);
      MarkKeeps(st0, f, c, flags, B);
      MarkHeads(st0, f, c, flags, B);
      FillFirst(st0.map_, st0.hint, Slot(c, HeadAttrs(st0.map_[f].attrs, flags), 0));
      EnterClimbs(st1, path, w, B);
      CreateKeeps(st, path, flags, w, B);
      FindAny(r.map_, c, 0, f);
    }
  }

  lemma {:induction false} EnterClimbs(st: Store, path: string, w: World, B: nat)
    requires Valid(st, B) && Sensible(w, B)
    ensures var up := Ancestors(Heads(st.map_), path, w);
      AllDirectories(Enter(st, path, w, B).map_, up, w) <==> |up| <= FreeCount(st.map_, st.hint)
    decreases |path|, 0
  {
    var up := Parent(path);
    if up.Some? && w.hash(up.value) !in Heads(st.map_) {
      var p, c := w.hash(up.value), w.hash(path);
      var st1, r := Create(st, up.value, PARENT, w, B), Enter(st, path, w, B);
      var rest := Ancestors(Heads(st.map_) + iset{p}, up.value, w);
      RemoveHeadInv(st, p, B);
      CreateClimbs(st, up.value, PARENT, w, st, B);
      CreateKeeps(st, up.value, PARENT, w, B);
      FreeCountFrom(st.map_, st.hint);
      var f := FreeFrom(st.map_, st.hint);
      if f < |st.map_| {
        MarkedDirectory(st1.map_, f, p, st.map_[f].attrs);
      }
      AllDirectoriesCons(st1.map_, up.value, rest, w);
      var h := Find(st1.map_, p, 0);
      if h < |st1.map_| {
        ExtendHeads(st1, h, w.gain(up.value), B);
        SameDirectories(st1.map_, Extend(st1, h, w.gain(up.value), B).map_, [up.value] + rest, w, B);
      }
    }
  }

  /** The directory that ends at j is not known, nor does one further down share its code. */
  ghost predicate Unmet(known: iset<Fcode>, path: string, w: World, j: nat)
    requires j <= |path|
  {
    w.hash(path[..j]) !in known && forall i :: j < i && Stop(path, i) ==> w.hash(path[..i]) != w.hash(path[..j])
  }

  /** Creation must make the directory that ends at k: it is unmet, and so are all further down. */
  ghost predicate Lacks(known: iset<Fcode>, path: string, w: World, k: nat)
  {
    Stop(path, k) && forall j :: k <= j && Stop(path, j) ==> Unmet(known, path, w, j)
  }

  ghost function Lacking(known: iset<Fcode>, path: string, w: World): set<nat>
  {
    set k: nat | k < |path| && Lacks(known, path, w, k)
  }

  ghost predicate LackingMade(m: Slots, known: iset<Fcode>, path: string, w: World)
  {
    forall k {:trigger path[..k]} :: k in Lacking(known, path, w) ==> IsDirectory(m, w.hash(path[..k]))
  }

  /** The directories on the way to path are its parent and those on the way to the parent. */
  lemma ParentStops(path: string, r: string)
    requires Parent(path) == Some(r)
    ensures Stop(path, |r|) && path[..|r|] == r
    ensures forall j: nat :: Stop(path, j) <==> j == |r| || Stop(r, j)
    ensures forall j: nat :: j <= |r| ==> path[..j] == r[..j]
  {
    ParentExactly(path);
    assert Above(r, path);
    forall j: nat | Stop(path, j)
      ensures j == |r| || Stop(r, j)
    {
      assert Above(path[..j], path);
    }
  }

  lemma UnmetStep(known: iset<Fcode>, path: string, w: World, r: string, j: nat)
    requires Parent(path) == Some(r) && Stop(path, j)
    ensures j <= |r| && (j < |r| ==> Stop(r, j))
    ensures Unmet(known, path, w, j) <==>
            if j == |r| then w.hash(r) !in known else Unmet(known + iset{w.hash(r)}, r, w, j)
  {
    hide Stop, Parent;
    ParentStops(path, r);
    forall i: nat | Stop(r, i)
      ensures i < |r|
    {
      StopsBefore(r, i);
    }
  }

  lemma StopsBefore(r: string, i: nat)
    requires Stop(r, i)
    ensures i < |r|
  {
  }

  /** What path lacks: its parent, and what the parent lacks once that is known. */
  lemma LackingStep(known: iset<Fcode>, path: string, w: World, r: string, k: nat)
    requires Parent(path) == Some(r)
    ensures w.hash(r) in known ==> !Lacks(known, path, w, k)
    ensures w.hash(r) !in known ==>
      (Lacks(known, path, w, k) <==> k == |r| || Lacks(known + iset{w.hash(r)}, r, w, k))
    ensures Lacks(known + iset{w.hash(r)}, r, w, k) ==> k < |r| && path[..k] == r[..k]
  {
    hide Stop, Parent, Unmet;
    ParentStops(path, r);
    forall i: nat | Stop(r, i)
      ensures i < |r|
    {
      StopsBefore(r, i);
    }
    forall j: nat | Stop(path, j)
      ensures j <= |r| && (j < |r| ==> Stop(r, j))
      ensures Unmet(known, path, w, j) <==>
              if j == |r| then w.hash(r) !in known else Unmet(known + iset{w.hash(r)}, r, w, j)
    {
      UnmetStep(known, path, w, r, j);
    }
  }

  lemma {:induction false} AncestorsAre(m: Slots, known: iset<Fcode>, path: string, w: World)
    ensures |Ancestors(known, path, w)| == |Lacking(known, path, w)|
    ensures AllDirectories(m, Ancestors(known, path, w), w) <==> LackingMade(m, known, path, w)
    decreases |path|
  {
    var up := Parent(path);
    if up.None? {
      ParentExactly(path);
      forall k: nat | k < |path|
        ensures !Lacks(known, path, w, k)
      {
        assert Stop(path, k) ==> Above(path[..k], path);
      }
      assert Lacking(known, path, w) == {};
    } else {
      var r := up.value;
      forall k: nat
        ensures w.hash(r) in known ==> !Lacks(known, path, w, k)
      {
        LackingStep(known, path, w, r, k);
      }
      if w.hash(r) in known {
        assert Lacking(known, path, w) == {};
      } else {
        AncestorsAre(m, known + iset{w.hash(r)}, r, w);
        LackingCons(m, known, path, w, r);
        AllDirectoriesCons(m, r, Ancestors(known + iset{w.hash(r)}, r, w), w);
      }
    }
  }

  lemma LackingCons(m: Slots, known: iset<Fcode>, path: string, w: World, r: string)
    requires Parent(path) == Some(r) && w.hash(r) !in known
    ensures |Lacking(known, path, w)| == 1 + |Lacking(known + iset{w.hash(r)}, r, w)|
    ensures LackingMade(m, known, path, w)
            <==> IsDirectory(m, w.hash(r)) && LackingMade(m, known + iset{w.hash(r)}, r, w)
  {
    var all, rest := Lacking(known, path, w), Lacking(known + iset{w.hash(r)}, r, w);
    hide Lacks, IsDirectory;
    forall k: nat
      ensures k in all <==> k == |r| || k in rest
      ensures k in rest ==> k < |r| && path[..k] == r[..k]
    {
      LackingStep(known, path, w, r, k);
      ParentPrefix(path, r);
    }
    ParentPrefix(path, r);
    assert all == {|r|} + rest;
    assert |r| !in rest;
    if LackingMade(m, known, path, w) {
      assert |r| in all;
      forall k | k in rest
        ensures IsDirectory(m, w.hash(r[..k]))
      {
        assert k in all && path[..k] == r[..k];
      }
    }
  }

  lemma ParentPrefix(path: string, r: string)
    requires Parent(path) == Some(r)
    ensures |r| < |path| && path[..|r|] == r
  {
  }

  /** Creation that is not told to leave an existing file alone: the file and all the directories it lacks on
      the way exist afterwards exactly when as many slots are free at or above the hint. */
  lemma CreateReaches(st: Store, path: string, flags: Flags, w: World, st0: Store, B: nat)
    requires Valid(st, B) && Sensible(w, B) && !(Has(st.map_, w.hash(path), 0) && !flags.force)
    requires st0 == RemoveHead(st, w.hash(path))
    ensures var c, r := w.hash(path), Create(st, path, flags, w, B);
      var known := Heads(st0.map_) + iset{c};
      Has(r.map_, c, 0) && LackingMade(r.map_, known, path, w)
      <==> 1 + |Lacking(known, path, w)| <= FreeCount(st0.map_, st0.hint)
  {
    CreateClimbs(st, path, flags, w, st0, B);
    AncestorsAre(Create(st, path, flags, w, B).map_, Heads(st0.map_) + iset{w.hash(path)}, path, w);
  }

  lemma EnterReaches(st: Store, path: string, w: World, B: nat)
    requires Valid(st, B) && Sensible(w, B)
    ensures var known := Heads(st.map_);
      LackingMade(Enter(st, path, w, B).map_, known, path, w)
      <==> |Lacking(known, path, w)| <= FreeCount(st.map_, st.hint)
  {
    EnterClimbs(st, path, w, B);
    AncestorsAre(Enter(st, path, w, B).map_, Heads(st.map_), path, w);
  }

  // ---------------------------------------------------------------- replacing a file

  lemma {:induction false} FreeSomewhere(m: Slots, k: nat)
    ensures FreeFrom(m, k) < |m| <==> exists j :: k <= j < |m| && Free(m[j])
  {
    if j :| k <= j < |m| && Free(m[j]) {
      FreeFromLeast(m, k, j);
    }
  }

  /** A forced re-creation yields the file exactly when a slot at or above the hint is free or holds
      the file's own old head; otherwise the old file is gone and no new one takes its place. */
  lemma ReplaceExactly(st: Store, path: string, flags: Flags, w: World, B: nat)
    requires Valid(st, B) && Sensible(w, B) && flags.force
    ensures var c := w.hash(path);
      Has(Create(st, path, flags, w, B).map_, c, 0) <==>
      exists j :: st.hint <= j < |st.map_| && (Free(st.map_[j]) || Is(st.map_[j], c, 0))
  {
    var c, r := w.hash(path), Create(st, path, flags, w, B);
    var st0 := RemoveHead(st, c);
    CreateKeeps(st, path, flags, w, B);
    RemoveHeadInv(st, c, B);
    var m, m0, f := st.map_, st0.map_, FreeFrom(st0.map_, st0.hint);
    FreeSomewhere(m0, st0.hint);
    forall j | 0 <= j < |m|
      ensures Free(m0[j]) <==> Free(m[j]) || Is(m[j], c, 0)
    {
      if Is(m[j], c, 0) {
        FindUnique(m, c, 0, j);
      }
    }
    if f < |m0| {
      FindAny(r.map_, c, 0, f);
      assert st.hint <= f < |m| && (Free(m[f]) || Is(m[f], c, 0));
    } else {
      assert r.map_ == m0;
    }
  }

  // ---------------------------------------------------------------- next fit

  /** The slots n successive allocate-and-fill steps take. */
  function Taken(m: Slots, hint: nat, h: nat, n: nat): seq<nat>
    requires h < |m|
    decreases n
  {
    if n == 0 then []
    else
      var f := FreeFrom(m, hint);
      if f < |m| then [f] + Taken(m[f := NextSlot(m, h)], f, h, n - 1) else Taken(m, 0, h, n - 1)
  }

  /** The first n free slots at or above k, in order. */
  function FirstFree(m: Slots, k: nat, n: nat): (r: seq<nat>)
    ensures |r| <= n
    ensures forall i :: 0 <= i < |r| ==> k <= r[i] < |m| && Free(m[r[i]])
    ensures forall i, j :: 0 <= i < j < |r| ==> r[i] < r[j]
    decreases |m| - k
  {
    if n == 0 || k >= |m| then []
    else if Free(m[k]) then [k] + FirstFree(m, k + 1, n - 1)
    else FirstFree(m, k + 1, n)
  }

  lemma {:induction false} FirstFreeAbove(m: Slots, m': Slots, k: nat, n: nat)
    requires |m| == |m'| && forall j :: k <= j < |m| ==> m[j] == m'[j]
    ensures FirstFree(m, k, n) == FirstFree(m', k, n)
    decreases |m| - k
  {
    if n > 0 && k < |m| {
      FirstFreeAbove(m, m', k + 1, if Free(m[k]) then n - 1 else n);
    }
  }

  lemma {:induction false} FirstFreeSkips(m: Slots, k: nat, n: nat)
    requires n > 0 && FreeFrom(m, k) < |m|
    ensures var f := FreeFrom(m, k); FirstFree(m, k, n) == [f] + FirstFree(m, f + 1, n - 1)
    decreases |m| - k
  {
    if !Free(m[k]) {
      FirstFreeSkips(m, k + 1, n);
    }
  }

  /** What filling the first free slot leaves for the next step. */
  lemma FillStep(m: Slots, hint: nat, h: nat, n: nat) returns (f: nat, m': Slots)
    requires LiveHead(m, h) && 0 < n <= FreeCount(m, hint)
    ensures f == FreeFrom(m, hint) < |m| && m' == m[f := NextSlot(m, h)] && LiveHead(m', h)
    ensures n - 1 <= FreeCount(m', f)
    ensures FirstFree(m, hint, n) == [f] + FirstFree(m', f, n - 1)
  {
    f := FreeFrom(m, hint);
    FreeCountFrom(m, hint);
    FillFirst(m, hint, NextSlot(m, h));
    FirstFreeSkips(m, hint, n);
    m' := m[f := NextSlot(m, h)];
    FirstFreeAbove(m, m', f + 1, n - 1);
    if n - 1 > 0 {
      assert FirstFree(m', f, n - 1) == FirstFree(m', f + 1, n - 1);
    }
  }

  /** With n free slots at or above the hint, n steps all succeed and take exactly the first n of them. */
  lemma {:induction false} NextFit(m: Slots, hint: nat, h: nat, n: nat)
    requires LiveHead(m, h) && n <= FreeCount(m, hint)
    ensures Taken(m, hint, h, n) == FirstFree(m, hint, n) && |Taken(m, hint, h, n)| == n
    decreases n
  {
    hide FirstFree, FreeCount, LiveHead;
    if n > 0 {
      var f, m' := FillStep(m, hint, h, n);
      NextFit(m', f, h, n - 1);
    }
  }

  /** Those slots, and no others, change hands: they now belong to the family. */
  lemma {:induction false} NextFitFills(m: Slots, hint: nat, h: nat, n: nat, j: nat)
    requires LiveHead(m, h) && n <= FreeCount(m, hint) && j < |m|
    ensures Grow(m, hint, h, n).0[j].code == if j in FirstFree(m, hint, n) then m[h].code else m[j].code
    ensures j !in FirstFree(m, hint, n) ==> Grow(m, hint, h, n).0[j] == m[j]
    decreases n
  {
    hide FirstFree, FreeCount, LiveHead;
    if n > 0 {
      var f, m' := FillStep(m, hint, h, n);
      NextFitFills(m', f, h, n - 1, j);
      assert j in FirstFree(m, hint, n) <==> j == f || j in FirstFree(m', f, n - 1);
    }
  }

  /** allocatecluster: the least free slot at or above the hint, NULL iff there is none; after a
      NULL the hint is 0, so a second NULL means the whole map is in use. */
  lemma AllocateExactly(m: Slots, hint: nat)
    ensures var f := FreeFrom(m, hint);
      && (f < |m| <==> exists j :: hint <= j < |m| && Free(m[j]))
      && (f < |m| ==> hint <= f && Free(m[f]) && forall j :: hint <= j < f ==> !Free(m[j]))
    ensures FreeFrom(m, 0) == |m| <==> forall j :: 0 <= j < |m| ==> !Free(m[j])
  {
    FreeSomewhere(m, hint);
    FreeSomewhere(m, 0);
    forall j | hint <= j < FreeFrom(m, hint)
      ensures !Free(m[j])
    {
      if Free(m[j]) {
        FreeFromLeast(m, hint, j);
      }
    }
  }

  // ---------------------------------------------------------------- all runs

  datatype Op =
    | DoCreate(path: string, flags: Flags)
    | DoExtend(head: nat)
    | DoRemoveHead(path: string)
    | DoRemoveFamily(code: Fcode)
    | DoWrite(head: nat, cursor: nat, data: seq<byte>, now: Clock)

  /** Extending and writing go through a live head. */
  ghost predicate Enabled(st: Store, op: Op)
  {
    match op
    case DoExtend(h) => LiveHead(st.map_, h)
    case DoWrite(h, cursor, _, now) => LiveHead(st.map_, h) && Ticks(now) && cursor < TWO_64
    case _ => true
  }

  ghost function Apply(st: Store, op: Op, w: World, B: nat): (r: Store)
    requires Shaped(st, B) && Sensible(w, B) && Enabled(st, op)
    ensures Shaped(r, B)
  {
    match op
    case DoCreate(path, flags) => Create(st, path, flags, w, B)
    case DoExtend(h) => AddBlock(st, h, B)
    case DoRemoveHead(path) => RemoveHead(st, w.hash(path))
    case DoRemoveFamily(c) => RemoveFamily(st, c)
    case DoWrite(h, cursor, data, now) => WriteFile(st, h, cursor, data, now, B).store
  }

  /** One operation; one that is not enabled does nothing. */
  ghost function Step(st: Store, op: Op, w: World, B: nat): (r: Store)
    requires Shaped(st, B) && Sensible(w, B)
    ensures Shaped(r, B)
  {
    if Enabled(st, op) then Apply(st, op, w, B) else st
  }

  ghost function Run(st: Store, ops: seq<Op>, w: World, B: nat): (r: Store)
    requires Shaped(st, B) && Sensible(w, B)
    ensures Shaped(r, B)
    decreases |ops|
  {
    if ops == [] then st else Run(Step(st, ops[0], w, B), ops[1..], w, B)
  }

  lemma ApplyInv(st: Store, op: Op, w: World, B: nat)
    requires Valid(st, B) && Sensible(w, B) && Enabled(st, op)
    ensures Valid(Apply(st, op, w, B), B)
  {
    match op
    case DoCreate(path, flags) => CreateKeeps(st, path, flags, w, B);
    case DoExtend(h) => AddBlockKeeps(st, h, B);
    case DoRemoveHead(path) => RemoveHeadInv(st, w.hash(path), B);
    case DoRemoveFamily(c) =>
      if c == NO_FILE {
        assert WithoutFamily(st.map_, c) == st.map_;
      } else {
        WithoutFamilyInv(st.map_, c);
      }
    case DoWrite(h, cursor, data, now) =>
      WriteConfined(st, h, cursor, data, now, WriteFile(st, h, cursor, data, now, B), B);
  }

  lemma {:induction false} RunInv(st: Store, ops: seq<Op>, w: World, B: nat)
    requires Valid(st, B) && Sensible(w, B)
    ensures Valid(Run(st, ops, w, B), B)
    decreases |ops|
  {
    if ops != [] {
      if Enabled(st, ops[0]) {
        ApplyInv(st, ops[0], w, B);
      }
      RunInv(Step(st, ops[0], w, B), ops[1..], w, B);
    }
  }

  ghost predicate Stored(m: Slots, c: Fcode, x: nat) { exists k :: 0 <= k < |m| && Is(m[k], c, x) }

  /** A family as the documentation has it: one head at most, data blocks 1 .. m once each. */
  ghost predicate WellNumbered(m: Slots, c: Fcode)
  {
    && (forall i, j ::
          0 <= i < |m| && 0 <= j < |m| && m[i].code == c && m[j].code == c && m[i].index == m[j].index ==> i == j)
    && (forall x: nat :: x >= 1 ==> (Stored(m, c, x) <==> x <= Tails(m, c)))
  }

  /** After any run from an empty volume every family is numbered without gap or duplicate,
      heads and only heads carry the metadata flag, and no slot carries the extension flag. */
  lemma EveryRun(n: nat, blocks: seq<seq<byte>>, hint: nat, ops: seq<Op>, w: World, c: Fcode, B: nat)
    requires n < TWO_32 && Sensible(w, B) && c != NO_FILE
    requires Shaped(Store(Empty(n), hint, blocks), B)
    ensures var m := Run(Store(Empty(n), hint, blocks), ops, w, B).map_;
      && WellNumbered(m, c)
      && (forall k :: 0 <= k < |m| ==> !Flag(m[k].attrs, EXTENSION))
      && (forall k :: 0 <= k < |m| && !Free(m[k]) ==> (Flag(m[k].attrs, METADATA) <==> m[k].index == 0))
  {
    var st := Store(Empty(n), hint, blocks);
    EmptyInv(n);
    RunInv(st, ops, w, B);
    var m := Run(st, ops, w, B).map_;
    InvNumbers(m, c);
    forall k | 0 <= k < |m|
      ensures !Flag(m[k].attrs, EXTENSION)
      ensures !Free(m[k]) ==> (Flag(m[k].attrs, METADATA) <==> m[k].index == 0)
    {
      assert At(m, k);
    }
  }

  lemma InvNumbers(m: Slots, c: Fcode)
    requires Inv(m) && c != NO_FILE
    ensures WellNumbered(m, c)
  {
    forall i, j | 0 <= i < |m| && 0 <= j < |m| && m[i].code == c && m[j].code == c && m[i].index == m[j].index
      ensures i == j
    {
      assert At(m, i) && At(m, j);
    }
    forall x: nat | x >= 1
      ensures Stored(m, c, x) <==> x <= Tails(m, c)
    {
      assert Find(m, c, x) < |m| <==> x <= Tails(m, c);
      if k :| 0 <= k < |m| && Is(m[k], c, x) {
        FindAny(m, c, x, k);
      }
    }
  }
}
