/** Whole runs and whole sessions as they happen on the disk. */
module Execution {
  import opened Arith
  import opened ClusterMap
  import opened FileStore
  import opened Files
  import opened Volume
  import opened Handles
  import opened Session
  import Runs

  // ---------------------------------------------------------------- runs on a volume

  /** One operation of the filesystem. */
  method PerformOp(vol: Volume, op: Runs.Op, w: Runs.World)
    requires vol.Valid() && Runs.Sensible(w, vol.geo.blockSize)
    modifies vol, vol.slots, vol.disk
    ensures vol.Valid() && vol.State() == Runs.Step(old(vol.State()), op, w, vol.geo.blockSize)
  {
    match op
    case DoCreate(path, flags) =>
      vol.Create(path, flags, w, {});
    case DoExtend(h) =>
      if h < vol.slots.Length && !Free(vol.slots[h]) && vol.slots[h].index == 0 {
        var k := vol.AddBlock(h, {});
      }
    case DoRemoveHead(path) =>
      var k := vol.FindIndexed(w.hash(path), 0);
      if k < vol.slots.Length {
        vol.RemoveHead(w.hash(path));
      }
    case DoRemoveFamily(c) =>
      vol.RemoveFamily(c);
    case DoWrite(h, cursor, data, now) =>
      if h < vol.slots.Length && !Free(vol.slots[h]) && vol.slots[h].index == 0
         && cursor < TWO_64 && |now.time| == 8 && |now.date| == 8 {
        WriteAt(vol, h, cursor, data, now);
      }
  }

  method WriteAt(vol: Volume, h: nat, cursor: nat, data: seq<byte>, now: Clock)
    requires vol.Valid() && LiveHead(vol.slots[..], h) && cursor < TWO_64 && Ticks(now)
    modifies vol, vol.slots, vol.disk
    ensures vol.Valid()
    ensures vol.State() == WriteFile(old(vol.State()), h, cursor, data, now, vol.geo.blockSize).store
  {
    var handle := new Handle(vol, h);
    handle.progress := cursor;
    var n := handle.Write(data, now);
  }

  /** A run on the disk is the run on the store. */
  method RunOps(vol: Volume, ops: seq<Runs.Op>, w: Runs.World)
    requires vol.Valid() && Runs.Sensible(w, vol.geo.blockSize)
    modifies vol, vol.slots, vol.disk
    ensures vol.Valid() && vol.State() == Runs.Run(old(vol.State()), ops, w, vol.geo.blockSize)
  {
    ghost var r := Runs.Run(vol.State(), ops, w, vol.geo.blockSize);
    var i := 0;
    assert ops[0..] == ops;
    while i < |ops|
      invariant i <= |ops| && vol.Valid()
      invariant Runs.Run(vol.State(), ops[i..], w, vol.geo.blockSize) == r
    {
      assert ops[i..][1..] == ops[i + 1..];
      PerformOp(vol, ops[i], w);
      i := i + 1;
    }
  }

  // ---------------------------------------------------------------- sessions on a handle

  /** One call on an open file. */
  method PerformCall(handle: Handle, call: Call) returns (data: seq<byte>)
    requires handle.Valid() && Typed(call)
    modifies handle, handle.vol, handle.vol.slots, handle.vol.disk
    ensures handle.Valid()
    ensures var st, B := old(handle.vol.State()), handle.vol.geo.blockSize;
      var o := Perform(st, handle.file, old(handle.progress), call, B);
      o.store == handle.vol.State() && o.cursor == handle.progress && o.data == data
  {
    data := [];
    match call
    case SeekTo(p) =>
      handle.SeekTo(p);
    case SeekOn(delta) =>
      handle.SeekRelative(delta);
    case Put(bytes, now) =>
      var n := handle.Write(bytes, now);
    case Get(n, now) =>
      var count;
      count, data := handle.Read(n, now);
  }

  /** The calls still to come complete done to the trace r. */
  ghost predicate Resumes(st: Store, h: nat, cursor: nat, calls: seq<Call>, B: nat, done: seq<seq<byte>>, r: Trace)
  {
    && Shaped(st, B) && h < |st.map_| && META_SIZE <= B < TWO_64 && cursor < TWO_64
    && (forall i :: 0 <= i < |calls| ==> Typed(calls[i]))
    && var q := RunCalls(st, h, cursor, calls, B); r == q.(output := done + q.output)
  }

  lemma ResumesNext(st: Store, h: nat, cursor: nat, calls: seq<Call>, B: nat,
                    done: seq<seq<byte>>, r: Trace, o: Outcome)
    requires Resumes(st, h, cursor, calls, B, done, r) && calls != [] && o == Perform(st, h, cursor, calls[0], B)
    ensures Resumes(o.store, h, o.cursor, calls[1..], B, done + [o.data], r)
  {
    var q := RunCalls(o.store, h, o.cursor, calls[1..], B);
    assert done + ([o.data] + q.output) == (done + [o.data]) + q.output;
  }

  /** A session on the disk is the session on the store. */
  method RunSession(handle: Handle, calls: seq<Call>) returns (output: seq<seq<byte>>)
    requires handle.Valid() && forall i :: 0 <= i < |calls| ==> Typed(calls[i])
    modifies handle, handle.vol, handle.vol.slots, handle.vol.disk
    ensures handle.Valid()
    ensures RunCalls(old(handle.vol.State()), handle.file, old(handle.progress), calls, handle.vol.geo.blockSize)
            == Trace(handle.vol.State(), handle.progress, output)
  {
    ghost var h, B := handle.file, handle.vol.geo.blockSize;
    ghost var r := RunCalls(handle.vol.State(), h, handle.progress, calls, B);
    output := [];
    var i := 0;
    assert calls[0..] == calls && [] + r.output == r.output;
    while i < |calls|
      invariant i <= |calls| && handle.Valid()
      invariant Resumes(handle.vol.State(), h, handle.progress, calls[i..], B, output, r)
    {
      ghost var st, cursor := handle.vol.State(), handle.progress;
      assert calls[i..][0] == calls[i] && calls[i..][1..] == calls[i + 1..];
      var data := PerformCall(handle, calls[i]);
      ResumesNext(st, h, cursor, calls[i..], B, output, r, Perform(st, h, cursor, calls[i], B));
      output := output + [data];
      i := i + 1;
    }
    assert output + [] == output;
  }
}
