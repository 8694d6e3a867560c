/** Whole sessions on an open file, against a tape: a byte sequence with a position. */
module Session {
  import opened Arith
  import opened ClusterMap
  import opened FileStore
  import opened Write
  import opened Files
  import opened Stream

  /** A call on the handle, with the clock it sees. */
  datatype Call =
    | SeekTo(p: nat)
    | SeekOn(delta: int)
    | Put(data: seq<byte>, now: Clock)
    | Get(n: nat, now: Clock)

  ghost predicate Typed(call: Call)
  {
    match call
    case SeekTo(_) => true
    case SeekOn(delta) => -0x8000_0000_0000_0000 <= delta < 0x8000_0000_0000_0000
    case Put(_, now) => Ticks(now)
    case Get(_, now) => Ticks(now)
  }

  // ---------------------------------------------------------------- the filesystem's run

  ghost function Perform(st: Store, h: nat, cursor: nat, call: Call, B: nat): (o: Outcome)
    requires Shaped(st, B) && h < |st.map_| && META_SIZE <= B < TWO_64 && cursor < TWO_64 && Typed(call)
    ensures Shaped(o.store, B) && |o.store.map_| == |st.map_| && o.cursor < TWO_64
  {
    match call
    case SeekTo(p) => Outcome(st, Seek(p, B), 0, [])
    case SeekOn(delta) => Outcome(st, SeekBy(cursor, delta, B), 0, [])
    case Put(data, now) => WriteFile(st, h, cursor, data, now, B)
    case Get(n, now) => ReadFile(st, h, cursor, n, now, B)
  }

  datatype Trace = Trace(store: Store, cursor: nat, output: seq<seq<byte>>)

  ghost function RunCalls(st: Store, h: nat, cursor: nat, calls: seq<Call>, B: nat): (r: Trace)
    requires Shaped(st, B) && h < |st.map_| && META_SIZE <= B < TWO_64 && cursor < TWO_64
    requires forall i :: 0 <= i < |calls| ==> Typed(calls[i])
    decreases |calls|
  {
    if calls == [] then Trace(st, cursor, [])
    else
      var o := Perform(st, h, cursor, calls[0], B);
      var r := RunCalls(o.store, h, o.cursor, calls[1..], B);
      r.(output := [o.data] + r.output)
  }

  // ---------------------------------------------------------------- the tape

  /** A file as its user sees it. room is the number of blocks it can still gain. */
  datatype Tape = Tape(bytes: seq<byte>, at: nat, room: nat, writable: bool)

  /** The largest position on a tape. */
  function Top(B: nat): int { TWO_64 - 1 - B }

  /** How many blocks a write of n bytes adds. */
  function Added(t: Tape, n: nat, B: nat): nat
    requires B > 0
  {
    Max(0, RoundUp(t.at + n, B) - |t.bytes|) / B
  }

  function Advance(t: Tape, call: Call, B: nat): (Tape, seq<byte>)
    requires 0 < B < TWO_64
  {
    match call
    case SeekTo(p) => (t.(at := Min(p, Top(B))), [])
    case SeekOn(delta) => (t.(at := Max(0, Min(t.at + delta, Top(B)))), [])
    case Put(data, _) =>
      if data == [] || !t.writable then (t, [])
      else
        var room := Max(0, t.room - Added(t, |data|, B));
        (t.(bytes := Patch(t.bytes, t.at, data, B), at := t.at + |data|, room := room), [])
    case Get(n, _) =>
      if t.at + n <= |t.bytes| then (t.(at := t.at + n), t.bytes[t.at..t.at + n]) else (t, [])
  }

  /** What a caller must see to: positions stay in 64 bits, and a write starts within a block of
      the end of the file and adds no more blocks than there is room for. */
  predicate Allowed(t: Tape, call: Call, B: nat)
    requires B > 0
  {
    match call
    case SeekTo(_) => true
    case SeekOn(_) => true
    case Put(data, _) =>
      data == [] || !t.writable ||
      (t.at + |data| <= Top(B) && t.at < |t.bytes| + B && Added(t, |data|, B) <= t.room)
    case Get(n, _) => t.at + n <= Top(B)
  }

  /** Every call is allowed when its turn comes. */
  predicate AllAllowed(t: Tape, calls: seq<Call>, B: nat)
    requires 0 < B < TWO_64
    decreases |calls|
  {
    calls == [] || (Allowed(t, calls[0], B) && AllAllowed(Advance(t, calls[0], B).0, calls[1..], B))
  }

  function Play(t: Tape, calls: seq<Call>, B: nat): (Tape, seq<seq<byte>>)
    requires 0 < B < TWO_64
    decreases |calls|
  {
    if calls == [] then (t, [])
    else
      var (t1, out) := Advance(t, calls[0], B);
      var (t2, rest) := Play(t1, calls[1..], B);
      (t2, [out] + rest)
  }

  // ---------------------------------------------------------------- refinement

  /** The tape a handle stands for. */
  ghost predicate Shows(st: Store, h: nat, cursor: nat, t: Tape, B: nat)
  {
    && Open(st, h, cursor, B) && cursor < TWO_64 && B < TWO_64
    && t.bytes == Contents(st, st.map_[h].code, B) && t.at == cursor - B
    && t.room == FreeCount(st.map_, st.hint) && t.writable == !Flag(st.map_[h].attrs, READ_ONLY)
  }

  /** The blocks a write adds, counted on the tape and in the map. */
  lemma AddedIs(t: Tape, tails: nat, cursor: nat, n: nat, B: nat)
    requires B > 0 && n > 0 && |t.bytes| == Span(tails, B) && cursor == t.at + B
    ensures Added(t, n, B) == Missing(tails, LastBlock(cursor, n, B))
    ensures t.at < |t.bytes| + B <==> cursor / B <= tails + 1
    ensures 1 <= cursor / B
  {
    var l, e := LastBlock(cursor, n, B), t.at + n;
    SpanIs(tails, B);
    DivLess(cursor, B, 1);
    DivLess(cursor, B, tails + 2);
    assert (tails + 2) * B == tails * B + B + B;
    LastIs(cursor, n, e, l, B);
    Quotient(l, tails, B);
  }

  lemma LastIs(cursor: nat, n: nat, e: nat, l: nat, B: nat)
    requires B > 0 && n > 0 && e == cursor - B + n && l == LastBlock(cursor, n, B) && B <= cursor
    ensures l >= 1 && RoundUp(e, B) == l * B
  {
    DivMod(cursor + n - 1, B);
    DivLess(cursor + n - 1, B, 1);
    SpanIs(l - 1, B);
    assert (l - 1) * B + B == l * B;
    RoundUpIn(l - 1, e, B);
  }

  lemma Quotient(l: nat, t: nat, B: nat)
    requires B > 0
    ensures Max(0, l * B - t * B) / B == Missing(t, l)
  {
    if l > t {
      assert l * B - t * B == (l - t) * B;
      MulNonneg(l - t, B);
      DivIs((l - t) * B, B, l - t, 0);
    } else {
      MulMono(l, t, B);
      DivIs(0, B, 0, 0);
    }
  }

  /** The bytes of every file but c are the same. */
  ghost predicate Spares(st: Store, st': Store, c: Fcode, B: nat)
  {
    && Valid(st, B) && Valid(st', B)
    && forall d: Fcode {:trigger Contents(st', d, B)} ::
      d != NO_FILE && d != c ==> Contents(st', d, B) == Contents(st, d, B)
  }

  lemma PutAccepted(st: Store, h: nat, cursor: nat, t: Tape, data: seq<byte>, now: Clock, B: nat)
    requires Shows(st, h, cursor, t, B) && Allowed(t, Put(data, now), B) && data != [] && t.writable
    ensures Accepted(st, h, cursor, data, B) && Added(t, |data|, B) == Need(st, h, cursor, |data|, B)
  {
    var tails := Tails(st.map_, st.map_[h].code);
    FlatLength(FileBlocks(st, st.map_[h].code, B), B);
    AddedIs(t, tails, cursor, |data|, B);
  }

  /** Every handle on an open file shows a tape. */
  lemma TapeOf(st: Store, h: nat, cursor: nat, B: nat)
    requires Open(st, h, cursor, B) && cursor < TWO_64 && B < TWO_64
    ensures var c := st.map_[h].code;
      var t := Tape(Contents(st, c, B), cursor - B, FreeCount(st.map_, st.hint), !Flag(st.map_[h].attrs, READ_ONLY));
      Shows(st, h, cursor, t, B)
  {
  }

  /** A write is allowed on the tape exactly when the filesystem accepts it, or has nothing to do. */
  lemma PutAllowed(st: Store, h: nat, cursor: nat, t: Tape, data: seq<byte>, now: Clock, B: nat)
    requires Shows(st, h, cursor, t, B)
    ensures Allowed(t, Put(data, now), B) <==>
            data == [] || Flag(st.map_[h].attrs, READ_ONLY) || Accepted(st, h, cursor, data, B)
  {
    if data != [] {
      FlatLength(FileBlocks(st, st.map_[h].code, B), B);
      AddedIs(t, Tails(st.map_, st.map_[h].code), cursor, |data|, B);
    }
  }

  lemma WriteRoom(st: Store, h: nat, cursor: nat, data: seq<byte>, now: Clock, o: Outcome, n: nat, B: nat)
    requires Accepted(st, h, cursor, data, B) && Ticks(now) && o == WriteFile(st, h, cursor, data, now, B)
    requires n == Need(st, h, cursor, |data|, B)
    ensures FreeCount(o.store.map_, o.store.hint) == FreeCount(st.map_, st.hint) - n
  {
    var st1, r := WriteLoopRuns(st, h, cursor, data, now, B);
  }

  lemma PutRefines(st: Store, h: nat, cursor: nat, t: Tape, data: seq<byte>, now: Clock, o: Outcome, t': Tape, B: nat)
    requires Shows(st, h, cursor, t, B) && Allowed(t, Put(data, now), B) && data != [] && t.writable && Ticks(now)
    requires o == WriteFile(st, h, cursor, data, now, B) && t' == Advance(t, Put(data, now), B).0
    ensures Shows(o.store, h, o.cursor, t', B) && o.data == [] && o.store.map_[h] == st.map_[h]
  {
    hide Inv, WriteFile, Patch, Flat, FileBlocks, WriteLoop, Added, RoomFor, Tails, FreeCount;
    PutAccepted(st, h, cursor, t, data, now, B);
    WriteOverwrites(st, h, cursor, data, now, B);
    WriteRoom(st, h, cursor, data, now, o, Added(t, |data|, B), B);
    assert o.data == [] by {
      var st1, r := WriteLoopRuns(st, h, cursor, data, now, B);
    }
  }

  lemma ConfinedSpares(st: Store, st': Store, h: nat, B: nat)
    requires Valid(st, B) && Valid(st', B) && Confined(st, st', h)
    ensures Spares(st, st', st.map_[h].code, B)
  {
    forall d: Fcode | d != NO_FILE && d != st.map_[h].code
      ensures Contents(st', d, B) == Contents(st, d, B)
    {
      ConfinedOthers(st, st', h, d, B);
    }
  }

  /** A time stamp shows the same tape. */
  lemma StampShows(st: Store, h: nat, cursor: nat, t: Tape, now: Clock, wt: bool, st': Store, B: nat)
    requires Shows(st, h, cursor, t, B) && Ticks(now) && st' == StampHead(st, h, now, wt, B)
    ensures Shows(st', h, cursor, t, B) && st'.map_ == st.map_ && Spares(st, st', st.map_[h].code, B)
  {
    StampKeeps(st, h, now, wt, st.map_[h].code, B);
    forall d: Fcode | d != NO_FILE
      ensures Contents(st', d, B) == Contents(st, d, B)
    {
      StampKeeps(st, h, now, wt, d, B);
    }
  }

  lemma GetRefines(st: Store, h: nat, cursor: nat, t: Tape, n: nat, now: Clock, o: Outcome, t': Tape, B: nat)
    requires Shows(st, h, cursor, t, B) && Allowed(t, Get(n, now), B) && Ticks(now)
    requires o == ReadFile(st, h, cursor, n, now, B) && t' == Advance(t, Get(n, now), B).0
    ensures Shows(o.store, h, o.cursor, t', B) && o.data == Advance(t, Get(n, now), B).1
    ensures o.store.map_ == st.map_ && Spares(st, o.store, st.map_[h].code, B)
  {
    hide Inv, ReadFile, StampHead, FileBlocks, Flat, SizeOf, FreeCount, Spares;
    var st1 := StampHead(st, h, now, false, B);
    StampShows(st, h, cursor, t, now, false, st1, B);
    SizeIs(st, h, B);
    if n > 0 {
      ReadExactly(st, h, cursor, n, now, B);
    } else {
      ReadNothing(st, h, cursor, now, B);
      assert t.at <= |t.bytes| ==> t.bytes[t.at..t.at + 0] == [];
    }
    SparesNothing(st, st.map_[h].code, B);
  }

  lemma SparesNothing(st: Store, c: Fcode, B: nat)
    requires Valid(st, B)
    ensures Spares(st, st, c, B)
  {
  }

  /** A read of no bytes stamps the file if the cursor lies within it. */
  lemma ReadNothing(st: Store, h: nat, cursor: nat, now: Clock, B: nat)
    requires Open(st, h, cursor, B) && cursor < TWO_64 && Ticks(now)
    ensures ReadFile(st, h, cursor, 0, now, B)
            == if cursor - B <= SizeOf(st, h, B) then Outcome(StampHead(st, h, now, false, B), cursor, 0, [])
               else Outcome(st, cursor, 0, [])
  {
    hide Inv, StampHead, SizeOf;
    ReadTest(cursor, 0, B);
  }

  lemma CallRefines(st: Store, h: nat, cursor: nat, t: Tape, call: Call, o: Outcome, B: nat)
    requires Shows(st, h, cursor, t, B) && Typed(call) && Allowed(t, call, B) && o == Perform(st, h, cursor, call, B)
    ensures Shows(o.store, h, o.cursor, Advance(t, call, B).0, B) && o.data == Advance(t, call, B).1
    ensures o.store.map_[h] == st.map_[h] && Spares(st, o.store, st.map_[h].code, B)
  {
    match call
    case SeekTo(p) =>
    case SeekOn(delta) => SeekByClamps(cursor, delta, B);
    case Get(n, now) => GetRefines(st, h, cursor, t, n, now, o, Advance(t, call, B).0, B);
    case Put(data, now) =>
      if data != [] && t.writable {
        PutRefines(st, h, cursor, t, data, now, o, Advance(t, call, B).0, B);
        WriteConfined(st, h, cursor, data, now, o, B);
        ConfinedSpares(st, o.store, h, B);
      } else if data != [] {
        StampShows(st, h, cursor, t, now, true, o.store, B);
      }
  }

  lemma SparesTrans(s0: Store, s1: Store, s2: Store, c: Fcode, B: nat)
    requires Spares(s0, s1, c, B) && Spares(s1, s2, c, B)
    ensures Spares(s0, s2, c, B)
  {
    forall d: Fcode | d != NO_FILE && d != c
      ensures Contents(s2, d, B) == Contents(s0, d, B)
    {
      assert Contents(s1, d, B) == Contents(s0, d, B);
    }
  }

  /** Any session whose calls are allowed returns, call by call, what the tape returns, ends
      where the tape ends, and leaves the bytes of every other file alone. */
  lemma {:induction false} SessionRefines(st: Store, h: nat, cursor: nat, t: Tape, calls: seq<Call>, B: nat)
    requires Shows(st, h, cursor, t, B) && AllAllowed(t, calls, B)
    requires forall i :: 0 <= i < |calls| ==> Typed(calls[i])
    ensures var r, p := RunCalls(st, h, cursor, calls, B), Play(t, calls, B);
      && r.output == p.1 && Shows(r.store, h, r.cursor, p.0, B)
      && r.store.map_[h] == st.map_[h] && Spares(st, r.store, st.map_[h].code, B)
    decreases |calls|
  {
    if calls != [] {
      var o := Perform(st, h, cursor, calls[0], B);
      CallRefines(st, h, cursor, t, calls[0], o, B);
      SessionRefines(o.store, h, o.cursor, Advance(t, calls[0], B).0, calls[1..], B);
      SparesTrans(st, o.store, RunCalls(st, h, cursor, calls, B).store, st.map_[h].code, B);
    }
  }

  // ---------------------------------------------------------------- every session

  lemma CallConfined(st: Store, h: nat, cursor: nat, call: Call, o: Outcome, B: nat)
    requires Valid(st, B) && LiveHead(st.map_, h) && META_SIZE <= B < TWO_64 && cursor < TWO_64 && Typed(call)
    requires o == Perform(st, h, cursor, call, B)
    ensures Valid(o.store, B) && Confined(st, o.store, h)
  {
    match call
    case SeekTo(p) =>
    case SeekOn(delta) =>
    case Put(data, now) => WriteConfined(st, h, cursor, data, now, o, B);
    case Get(n, now) => StampConfined(st, h, now, false, B);
  }

  /** Every session whatsoever, allowed or not and wherever its positions wrap, keeps the map sound and
      the file's own slot, and changes no slot and no byte of any other file. */
  lemma {:induction false} SessionSpares(st: Store, h: nat, cursor: nat, calls: seq<Call>, B: nat)
    requires Valid(st, B) && LiveHead(st.map_, h) && META_SIZE <= B < TWO_64 && cursor < TWO_64
    requires forall i :: 0 <= i < |calls| ==> Typed(calls[i])
    ensures var r := RunCalls(st, h, cursor, calls, B).store;
      Valid(r, B) && Confined(st, r, h) && Spares(st, r, st.map_[h].code, B)
    decreases |calls|
  {
    if calls == [] {
      ConfinedSpares(st, st, h, B);
    } else {
      var o := Perform(st, h, cursor, calls[0], B);
      CallConfined(st, h, cursor, calls[0], o, B);
      ConfinedHead(st, o.store, h);
      SessionSpares(o.store, h, o.cursor, calls[1..], B);
      var r := RunCalls(st, h, cursor, calls, B).store;
      ConfinedTrans(st, o.store, r, h);
      ConfinedSpares(st, r, h, B);
    }
  }

  // ---------------------------------------------------------------- the cursor, with no room promised

  /** The bytes a call moves the cursor by, at most. */
  function Reach(call: Call): nat
  {
    match call
    case Put(data, _) => |data|
    case Get(n, _) => n
    case _ => 0
  }

  /** No call's end passes 2^64. */
  ghost predicate Within(st: Store, h: nat, cursor: nat, calls: seq<Call>, B: nat)
    requires Shaped(st, B) && h < |st.map_| && META_SIZE <= B < TWO_64 && cursor < TWO_64
    requires forall i :: 0 <= i < |calls| ==> Typed(calls[i])
    decreases |calls|
  {
    calls == [] ||
    (cursor + Reach(calls[0]) < TWO_64 &&
     var o := Perform(st, h, cursor, calls[0], B); Within(o.store, h, o.cursor, calls[1..], B))
  }

  lemma WriteKeepsOpen(st: Store, h: nat, cursor: nat, data: seq<byte>, now: Clock, o: Outcome, B: nat)
    requires Open(st, h, cursor, B) && Ticks(now) && cursor + |data| < TWO_64
    requires o == WriteFile(st, h, cursor, data, now, B)
    ensures Open(o.store, h, o.cursor, B)
  {
    WriteConfined(st, h, cursor, data, now, o, B);
    ConfinedHead(st, o.store, h);
    NoWrap(cursor + |data|);
  }

  lemma ReadKeepsOpen(st: Store, h: nat, cursor: nat, n: nat, now: Clock, o: Outcome, B: nat)
    requires Open(st, h, cursor, B) && Ticks(now) && cursor + n < TWO_64
    requires o == ReadFile(st, h, cursor, n, now, B)
    ensures Open(o.store, h, o.cursor, B)
  {
    hide Inv, SizeOf, StampHead, ReadLoop, Contents;
    StampKeeps(st, h, now, false, st.map_[h].code, B);
    ReadTest(cursor, n, B);
    if cursor - B + n <= SizeOf(st, h, B) {
      var out := ReadLoop(StampHead(st, h, now, false, B), h, cursor, n, B);
      assert |out| <= n && o.cursor == (cursor + |out|) % TWO_64;
      NoWrap(cursor + |out|);
    }
  }

  lemma CallKeepsOpen(st: Store, h: nat, cursor: nat, call: Call, o: Outcome, B: nat)
    requires Open(st, h, cursor, B) && cursor + Reach(call) < TWO_64 && B < TWO_64
    requires Typed(call) && o == Perform(st, h, cursor, call, B)
    ensures Open(o.store, h, o.cursor, B)
  {
    match call
    case SeekTo(p) =>
    case SeekOn(delta) => SeekByClamps(cursor, delta, B);
    case Put(data, now) => WriteKeepsOpen(st, h, cursor, data, now, o, B);
    case Get(n, now) => ReadKeepsOpen(st, h, cursor, n, now, o, B);
  }

  /** Whatever the calls, and whether or not the volume runs out of slots on the way: the map stays
      sound, the file stays open and the cursor never enters the metadata block. */
  lemma {:induction false} CursorKept(st: Store, h: nat, cursor: nat, calls: seq<Call>, B: nat)
    requires Open(st, h, cursor, B) && cursor < TWO_64 && B < TWO_64
    requires forall i :: 0 <= i < |calls| ==> Typed(calls[i])
    requires Within(st, h, cursor, calls, B)
    ensures var r := RunCalls(st, h, cursor, calls, B); Open(r.store, h, r.cursor, B) && r.cursor < TWO_64
    decreases |calls|
  {
    if calls != [] {
      var o := Perform(st, h, cursor, calls[0], B);
      CallKeepsOpen(st, h, cursor, calls[0], o, B);
      CursorKept(o.store, h, o.cursor, calls[1..], B);
    }
  }

  /** Past 2^64 the cursor wraps: a write then leaves it in front of the data exactly when it ends
      less than a block beyond 2^64. */
  lemma CursorWraps(st: Store, h: nat, cursor: nat, data: seq<byte>, now: Clock, B: nat)
    requires Open(st, h, cursor, B) && Ticks(now) && data != [] && !Flag(st.map_[h].attrs, READ_ONLY)
    requires cursor < TWO_64 && |data| < TWO_64 && B < TWO_64
    ensures WriteFile(st, h, cursor, data, now, B).cursor < B <==> TWO_64 <= cursor + |data| < TWO_64 + B
  {
    hide Inv, WriteLoop, StampHead, Stamped;
    WrapOnce(cursor + |data|);
  }

  lemma WrapOnce(e: nat)
    requires e < TWO_64 + TWO_64
    ensures e % TWO_64 == if e < TWO_64 then e else e - TWO_64
  {
    DivIs(e, TWO_64, if e < TWO_64 then 0 else 1, if e < TWO_64 then e else e - TWO_64);
  }
}
