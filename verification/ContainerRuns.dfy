/** Whole runs of one container against a flat file: a history of operations determines every byte, the size
    as the source tracks it, and the end of the data, which is the size as meant. */
module ContainerRuns {
  import opened Wrappers
  import opened Values
  import opened ExtentName
  import opened Extent
  import opened ContainerState
  import opened Container

  datatype Op =
    | Write(off: nat, data: seq<byte>)
    | Resize(size: nat)
    | Read(from: nat, n: nat)
    | DropFromCache
    | Restart

  /** The operations stay below the limits that the index types set. */
  predicate InRange(op: Op)
  {
    match op
    case Write(off, data) => off + |data| <= MAX_SIZE
    case Resize(size) => size <= MAX_SIZE
    case Read(from, n) => from + n <= INDEXED
    case DropFromCache => true
    case Restart => true
  }

  // ---------- the flat file ----------

  /** Byte `p` of a flat zero-extended file after the operations. */
  function FlatByte(ops: seq<Op>, p: nat): byte
  {
    if ops == [] then 0 as byte
    else
      var before := ops[..|ops| - 1];
      match ops[|ops| - 1]
      case Write(off, data) => if off <= p < off + |data| then data[p - off] else FlatByte(before, p)
      case Resize(size) => if p < size then FlatByte(before, p) else 0
      case _ => FlatByte(before, p)
  }

  /** Where its data ends: the size as meant. */
  function EndAfter(ops: seq<Op>): nat
  {
    if ops == [] then 0
    else
      var before := ops[..|ops| - 1];
      match ops[|ops| - 1]
      case Write(off, data) => EndMoved(EndAfter(before), off, |data|)
      case Resize(size) => size
      case _ => EndAfter(before)
  }

  /** The size that the container keeps. */
  function SizeAfter(ops: seq<Op>): nat
  {
    if ops == [] then 0
    else
      var before := ops[..|ops| - 1];
      match ops[|ops| - 1]
      case Write(off, data) => if data == [] then SizeAfter(before) else off + |data|
      case Resize(size) => size
      case Restart => RestartedSize(EndAfter(before))
      case _ => SizeAfter(before)
  }

  // ---------- the container shows the flat file ----------

  ghost predicate Shows(id: string, s: Snapshot, ops: seq<Op>)
  {
    && (forall p: nat :: Byte(id, s, p) == FlatByte(ops, p))
    && IsEnd(id, s, EndAfter(ops))
  }

  ghost predicate Answered(before: seq<Op>, op: Op, out: seq<byte>)
  {
    op.Read? ==>
      && |out| == ReadLength(SizeAfter(before), op.from, op.n)
      && forall k :: 0 <= k < |out| ==> out[k] == FlatByte(before, op.from + k)
  }

  /** The container is where the operations lead when nothing fails. */
  ghost predicate Tracks(id: string, s: Snapshot, size: nat, ops: seq<Op>)
  {
    Coherent(id, s) && Shows(id, s, ops) && size == SizeAfter(ops)
  }

  lemma TracksNothing(id: string, s: Snapshot)
    requires Agree(id, s) && s.flags == []
    ensures Tracks(id, s, 0, [])
  {
  }

  lemma Unfold(ops: seq<Op>, op: Op)
    ensures (ops + [op])[..|ops|] == ops && (ops + [op])[|ops|] == op
  {
  }

  lemma TracksWrite(id: string, s: Snapshot, size: nat, t: Snapshot, ops: seq<Op>, off: nat, data: seq<byte>)
    requires Tracks(id, s, size, ops) && Written(id, s, t, off, data) && Coherent(id, t)
    ensures Tracks(id, t, if data == [] then size else off + |data|, ops + [Write(off, data)])
  {
    Unfold(ops, Write(off, data));
  }

  lemma TracksResize(id: string, s: Snapshot, size: nat, t: Snapshot, ops: seq<Op>, n: nat)
    requires Tracks(id, s, size, ops) && Resized(id, s, t, n) && Coherent(id, t)
    ensures Tracks(id, t, n, ops + [Resize(n)])
  {
  }

  lemma TracksSame(id: string, s: Snapshot, size: nat, t: Snapshot, ops: seq<Op>, op: Op)
    requires Tracks(id, s, size, ops) && Agree(id, s) && Agree(id, t) && t.objects == s.objects && Coherent(id, t)
    requires op.Read? || op.DropFromCache? || op.Restart?
    ensures !op.Restart? ==> Tracks(id, t, size, ops + [op])
    ensures op.Restart? ==> IsEnd(id, t, EndAfter(ops)) && Tracks(id, t, RestartedSize(EndAfter(ops)), ops + [op])
  {
    Unfold(ops, op);
    SameFile(id, s, t);
  }

  /** Every answer so far was the one that the operations before it give. */
  ghost predicate AllAnswered(ops: seq<Op>, outs: seq<seq<byte>>)
    requires |outs| <= |ops|
  {
    forall k :: 0 <= k < |outs| ==> Answered(ops[..k], ops[k], outs[k])
  }

  lemma AnsweredNext(ops: seq<Op>, outs: seq<seq<byte>>, out: seq<byte>)
    requires |outs| < |ops| && AllAnswered(ops, outs) && Answered(ops[..|outs|], ops[|outs|], out)
    ensures AllAnswered(ops, outs + [out])
  {
  }

  lemma AnsweredRead(id: string, s: Snapshot, size: nat, ops: seq<Op>, op: Op, out: seq<byte>)
    requires Tracks(id, s, size, ops) && op.Read?
    requires |out| == ReadLength(size, op.from, op.n)
    requires IsSlice(id, s, op.from, out)
    ensures Answered(ops, op, out)
  {
  }

  lemma AnsweredNothing(ops: seq<Op>, op: Op)
    requires !op.Read?
    ensures Answered(ops, op, [])
  {
  }

  lemma WrittenIsFramed(id: string, s: Snapshot, t: Snapshot, off: nat, data: seq<byte>)
    requires Written(id, s, t, off, data)
    ensures Frame(id, s, t)
  {
  }

  lemma ResizedIsFramed(id: string, s: Snapshot, t: Snapshot, size: nat, cut: nat)
    requires Resized(id, s, t, size) || ExtentsBelow(id, s, t, cut)
    ensures Frame(id, s, t)
  {
  }

  lemma CachedIsFlagged(id: string, s: Snapshot)
    requires Agree(id, s)
    ensures forall i: U32 :: ExtentId(id, i) in s.cache ==> Flagged(s.flags, i)
  {
  }

  lemma TrackedIsCoherent(id: string, s: Snapshot, size: nat, ops: seq<Op>)
    requires Tracks(id, s, size, ops)
    ensures Coherent(id, s)
  {
  }

  /** One operation on the real container. `out` is what a read returned. */
  method Step(c: Container, op: Op, ghost before: seq<Op>) returns (ok: bool, out: seq<byte>)
    requires c.Valid() && Agree(c.id, c.Snap()) && CleanNames(c.id, c.backend.objects) && InRange(op)
    modifies c, c.cache, c.backend
    ensures c.Valid() && (Agree(c.id, c.Snap()) || (!ok && op.Restart?))
    ensures CleanNames(c.id, c.backend.objects) && Frame(c.id, old(c.Snap()), c.Snap())
    ensures old(c.backend.faults) <= c.backend.faults && (!ok ==> old(c.backend.faults) < c.backend.faults)
    ensures ok && old(Tracks(c.id, c.Snap(), c.size, before)) ==>
              Tracks(c.id, c.Snap(), c.size, before + [op]) && Answered(before, op, out)
  {
    ghost var s, size := c.Snap(), c.size;
    ghost var tracked := Tracks(c.id, s, size, before);
    if tracked {
      TrackedIsCoherent(c.id, s, size, before);
    }
    if !op.Read? {
      AnsweredNothing(before, op);
    }
    hide Agree, Coherent, CleanNames, Written, Resized, Tracks, IsEnd, Frame, Answered, IsSlice;
    out := [];
    match op {
      case Write(off, data) =>
        ghost var done;
        ghost var left;
        ok, done, left := c.Write(off, data);
        WrittenIsFramed(c.id, s, c.Snap(), off, data[..done]);
        if ok && tracked {
          assert data[..done] == data;
          TracksWrite(c.id, s, size, c.Snap(), before, off, data);
        }
        CleanNamesKept(c.id, s, c.Snap());
      case Resize(n) =>
        ghost var cut;
        ghost var left;
        ok, cut, left := c.Resize(n);
        ResizedIsFramed(c.id, s, c.Snap(), n, cut);
        if ok && tracked {
          TracksResize(c.id, s, size, c.Snap(), before, n);
        }
        CleanNamesKept(c.id, s, c.Snap());
      case Read(from, n) =>
        var r := c.Read(from, n);
        ok := r.Some?;
        if ok {
          out := r.value;
          if tracked {
            AnsweredRead(c.id, s, size, before, op, out);
            TracksSame(c.id, s, size, c.Snap(), before, op);
          }
        }
      case DropFromCache =>
        c.DropFromCache();
        ok := true;
        if tracked {
          TracksSame(c.id, s, size, c.Snap(), before, op);
        }
      case Restart =>
        CachedIsFlagged(c.id, s);
        CleanNamesBounded(c.id, s.objects);
        CleanIsRestorable(c.id, s.objects);
        ok := c.Restart();
        if ok && tracked {
          TracksSame(c.id, s, size, c.Snap(), before, op);
        }
    }
  }

  lemma RunStarts(id: string, s: Snapshot, ops: seq<Op>)
    requires s.flags == [] && Agree(id, s)
    ensures Tracks(id, s, 0, ops[..0]) && Frame(id, s, s) && AllAnswered(ops, [])
  {
    TracksNothing(id, s);
    FrameReflexive(id, s);
    assert ops[..0] == [];
  }

  /** Any run on a container that starts empty, with any evictions and any failing backend calls in between.
      Flags, cache and backend agree whatever fails. While nothing has failed, every byte, the size and every
      answer are those that the history of operations gives. A failed restart ends the run. */
  method Execute(c: Container, ops: seq<Op>) returns (outs: seq<seq<byte>>, clean: bool, ended: bool)
    requires c.Valid() && c.extents == [] && c.size == 0
    requires Agree(c.id, c.Snap()) && CleanNames(c.id, c.backend.objects)
    requires forall op <- ops :: InRange(op)
    modifies c, c.cache, c.backend
    ensures |outs| <= |ops| && (!ended ==> Agree(c.id, c.Snap()) && |outs| == |ops|)
    ensures c.backend.faults == old(c.backend.faults) || c.backend.reliable ==> clean
    ensures Frame(c.id, old(c.Snap()), c.Snap())
    ensures clean ==>
              && !ended && Tracks(c.id, c.Snap(), c.size, ops)
              && AllAnswered(ops, outs)
  {
    ghost var start := c.Snap();
    assert start.flags == [];
    hide *;
    outs, clean, ended := [], true, false;
    RunStarts(c.id, start, ops);
    for k := 0 to |ops|
      invariant c.Valid() && Agree(c.id, c.Snap()) && CleanNames(c.id, c.backend.objects)
      invariant Frame(c.id, start, c.Snap())
      invariant |outs| == k && !ended
      invariant old(c.backend.faults) <= c.backend.faults && (!clean ==> old(c.backend.faults) < c.backend.faults)
      invariant clean ==> Tracks(c.id, c.Snap(), c.size, ops[..k])
      invariant clean ==> AllAnswered(ops, outs)
    {
      ghost var prev := c.Snap();
      var ok, out := Step(c, ops[k], ops[..k]);
      FrameTransitive(c.id, start, prev, c.Snap());
      assert ops[..k] + [ops[k]] == ops[..k + 1];
      if clean && ok {
        AnsweredNext(ops, outs, out);
      }
      outs, clean := outs + [out], clean && ok;
      if !ok && ops[k].Restart? {
        ended := true;
        return;
      }
    }
    assert ops[..|ops|] == ops;
  }

  // ---------- the size as written and as meant ----------

  /** Whether the last operation that matters for the size left it right. */
  predicate SizeIsRight(ops: seq<Op>)
  {
    if ops == [] then true
    else
      var before := ops[..|ops| - 1];
      match ops[|ops| - 1]
      case Write(off, data) => if data == [] then SizeIsRight(before) else EndAfter(before) <= off + |data|
      case Resize(size) => true
      case Restart => EndAfter(before) <= CAPACITY
      case _ => SizeIsRight(before)
  }

  /** The container's size is the file's exactly when its last write ended at or beyond the end of the data,
      or its last restart found no data beyond the first extent. */
  lemma {:induction false} SizeAgrees(ops: seq<Op>)
    ensures SizeAfter(ops) == EndAfter(ops) <==> SizeIsRight(ops)
  {
    if ops != [] {
      SizeAgrees(ops[..|ops| - 1]);
    }
  }

  /** A write in the middle shortens the file, and a restart of a file of two extents loses one of them. */
  lemma SizeDisagrees(big: seq<byte>)
    requires |big| == CAPACITY + 1
    ensures SizeAfter([Write(0, [1, 1, 1]), Write(1, [2])]) == 2 && EndAfter([Write(0, [1, 1, 1]), Write(1, [2])]) == 3
    ensures SizeAfter([Write(0, big), Restart]) == 1 && EndAfter([Write(0, big), Restart]) == CAPACITY + 1
  {
  }

  /** A read transfers what it should exactly when it does not start beyond the end. */
  lemma ReadLengthAgrees(size: nat, off: nat, n: nat)
    requires size < TWO_64 && off < TWO_64
    ensures ReadLength(size, off, n) == MeantReadLength(size, off, n) <==> off <= size || n == 0
    ensures off > size ==>
              ReadLength(size, off, n) == if n <= TWO_64 - (off - size) then n else TWO_64 - (off - size)
  {
  }

  /** What the size loses with each extent that a resize goes past: it ends where the last extent of the file began, and
      a size of zero runs under. */
  lemma ShrunkToExtent(size: nat)
    requires size < TWO_64
    ensures 0 < size ==> ShrunkSize(size) % CAPACITY == 0 && ShrunkSize(size) < size <= ShrunkSize(size) + CAPACITY
    ensures size == 0 ==> ShrunkSize(size) == TWO_64 - CAPACITY
  {
  }

  lemma {:induction false} SizeNotBeyond(ops: seq<Op>)
    requires forall op <- ops :: InRange(op)
    ensures SizeAfter(ops) <= EndAfter(ops) <= MAX_SIZE
  {
    if ops != [] {
      SizeNotBeyond(ops[..|ops| - 1]);
      assert InRange(ops[|ops| - 1]);
    }
  }

  /** After any operations a read transfers what it should exactly when it asks for nothing, lies within the size,
      starts within a size that is right, or starts beyond the size and lies within the data. */
  lemma ReadAgrees(ops: seq<Op>, off: nat, n: nat)
    requires off < TWO_64 && forall op <- ops :: InRange(op)
    ensures var size, end := SizeAfter(ops), EndAfter(ops);
            ReadLength(size, off, n) == MeantReadLength(end, off, n) <==>
            n == 0 || off + n <= size || (off <= size && SizeIsRight(ops)) || (size < off && off + n <= end)
  {
    SizeNotBeyond(ops);
    SizeAgrees(ops);
    LengthsAgree(SizeAfter(ops), EndAfter(ops), off, n);
    hide *;
  }

  lemma LengthsAgree(size: nat, end: nat, off: nat, n: nat)
    requires size <= end <= MAX_SIZE && off < TWO_64
    ensures ReadLength(size, off, n) == MeantReadLength(end, off, n) <==>
            n == 0 || off + n <= size || (off <= size && size == end) || (size < off && off + n <= end)
  {
    if size < off {
      assert (size - off) % TWO_64 == size - off + TWO_64;
    } else {
      assert (size - off) % TWO_64 == size - off;
    }
  }

  // ---------- a failed store ----------

  /** A write over an extent that cannot be stored after its cached file was changed: the call fails and the backend
      keeps the old byte, but the cache has the new one. */
  method FailedOverwrite(c: Container) returns (ok: bool, ghost left: Option<Edit>)
    requires c.Valid() && Agree(c.id, c.Snap()) && Coherent(c.id, c.Snap())
    requires c.ExtentExists(0) && Content(c.id, c.Snap(), 0) == [1]
    modifies c, c.cache, c.backend
    ensures c.Valid() && Agree(c.id, c.Snap())
    ensures ok ==> Coherent(c.id, c.Snap()) && Byte(c.id, c.Snap(), 0) == 2
    ensures !ok ==> left.None? || left.value == Overwrite(0, []) || left.value == Overwrite(0, [2])
    ensures !ok ==> Byte(c.id, c.Snap(), 0) == 1 && (Coherent(c.id, c.Snap()) <==> left != Some(Overwrite(0, [2])))
  {
    ghost var done;
    ok, done, left := c.Write(0, [2]);
    hide Agree, Coherent;
    assert !ok ==> done == 0 && ChunkAt(0, [2][0..]) == Overwrite(0, [2]);
    assert Left([1], Some(Overwrite(0, [2]))) == [2] && Left([1], Some(Overwrite(0, []))) == [1];
  }

  /** The 32-bit extent index is the real one exactly below 2^52 bytes; there it starts over. */
  lemma IndexTruncates(off: nat)
    ensures IndexOf(off) == off / CAPACITY <==> off < INDEXED
    ensures IndexOf(off + INDEXED) == IndexOf(off)
  {
  }
}
