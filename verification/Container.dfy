/** A file cut into extents that are written through a cache to an object backend. */
module Container {
  import opened Wrappers
  import opened Values
  import opened Collections
  import opened ExtentName
  import opened Extent
  import opened ContainerState
  import opened LruCache

  // ---------- arithmetic as written ----------

  /** The extent index as the source computes it, in 32 bits. */
  function IndexOf(off: nat): U32
  {
    (off / CAPACITY) % TWO_32
  }

  /** The bytes that 32-bit extent indices can tell apart. */
  const INDEXED: nat := TWO_32 * CAPACITY

  /** The position that a read at `p` gets to. */
  function Seen(p: nat): nat
  {
    p % INDEXED
  }

  /** `data` is what reading at `off` finds. */
  ghost predicate IsFound(id: string, s: Snapshot, off: nat, data: seq<byte>)
  {
    forall k :: 0 <= k < |data| ==> data[k] == Byte(id, s, Seen(off + k))
  }

  lemma ChunkIsFound(id: string, s: Snapshot, pos: nat, i: U32, eoff: nat, data: seq<byte>)
    requires i == IndexOf(pos) && eoff == pos % CAPACITY && eoff + |data| <= CAPACITY
    requires IsSlice(id, s, i * CAPACITY + eoff, data)
    ensures IsFound(id, s, pos, data)
  {
    hide Byte;
    forall k | 0 <= k < |data|
      ensures data[k] == Byte(id, s, Seen(pos + k))
    {
      SeenInExtent(pos, k);
    }
  }

  lemma SeenInExtent(pos: nat, k: nat)
    requires pos % CAPACITY + k < CAPACITY
    ensures Seen(pos + k) == IndexOf(pos) * CAPACITY + pos % CAPACITY + k
  {
    assert (pos + k) / CAPACITY == pos / CAPACITY && (pos + k) % CAPACITY == pos % CAPACITY + k;
  }

  /** Below the limit that is the slice of the file. */
  lemma FoundIsSlice(id: string, s: Snapshot, off: nat, data: seq<byte>)
    requires IsFound(id, s, off, data) && off + |data| <= INDEXED
    ensures IsSlice(id, s, off, data)
  {
    hide Byte;
  }

  /** How much a read transfers: the test `off - size() > 0` is unsigned and so means "differs". */
  function ReadLength(size: nat, off: nat, n: nat): nat
  {
    if off != size then
      var rest := (size - off) % TWO_64;
      if rest < n then rest else n
    else 0
  }

  /** How much a read is meant to transfer: up to the end of the file. */
  function MeantReadLength(size: nat, off: nat, n: nat): nat
  {
    if off < size then if size - off < n then size - off else n else 0
  }

  /** The size while extents are being removed from the top, in 64 bits. */
  function ShrunkSize(size: nat): nat
  {
    if size % CAPACITY != 0 then size - size % CAPACITY else (size - CAPACITY) % TWO_64
  }

  /** The size that restart computes when the data ends at `e`: it adds one extent too few. */
  function RestartedSize(e: nat): nat
  {
    if e <= CAPACITY then e else e - CAPACITY
  }

  /** The change that the next chunk of a write makes to its extent. */
  function ChunkAt(pos: nat, data: seq<byte>): Edit
  {
    var eoff := pos % CAPACITY;
    Overwrite(eoff, if CAPACITY - eoff < |data| then data[..CAPACITY - eoff] else data)
  }

  /** The last extent that `n` bytes at `off` touch. */
  ghost function LastTouched(off: nat, n: nat): int
  {
    if n == 0 then off / CAPACITY - 1 else (off + n - 1) / CAPACITY
  }

  function ShrunkBy(size: nat, k: nat): nat
  {
    if k == 0 then size else ShrunkSize(ShrunkBy(size, k - 1))
  }

  lemma ShrunkOnce(size: nat, k: nat)
    ensures ShrunkBy(size, k + 1) == ShrunkSize(ShrunkBy(size, k))
  {
  }

  // ---------- the backend ----------

  datatype Reply<+T> = Done(value: T) | Missing | Failed

  /** The namespace's objects. Any call may fail without effect. */
  class Backend {
    var objects: Objects
    /** Everything that has gone wrong so far: failed calls, failed local file operations, a cache without room. */
    ghost var faults: nat
    /** Nothing ever goes wrong. */
    const reliable: bool

    ghost predicate Honest()
      reads this
    {
      reliable ==> faults == 0
    }

    constructor (good: bool)
      ensures objects == map[] && reliable == good && Honest()
    {
      objects, faults, reliable := map[], 0, good;
    }

    /** Whether the next thing that can fail does. */
    method Works() returns (ok: bool)
      modifies this`faults
      ensures faults == if ok then old(faults) else old(faults) + 1
      ensures reliable ==> ok
    {
      ok := *;
      ok := ok || reliable;
      if !ok {
        faults := faults + 1;
      }
    }

    method Read(name: string) returns (r: Reply<seq<byte>>)
      modifies this`faults
      ensures faults == if r.Failed? then old(faults) + 1 else old(faults)
      ensures !r.Failed? ==> r == if name in objects then Done(objects[name]) else Missing
      ensures reliable ==> !r.Failed?
    {
      var up := Works();
      r := if !up then Failed else if name in objects then Done(objects[name]) else Missing;
    }

    method Write(name: string, content: seq<byte>) returns (ok: bool)
      modifies this
      ensures faults == if ok then old(faults) else old(faults) + 1
      ensures objects == if ok then old(objects)[name := content] else old(objects)
      ensures reliable ==> ok
    {
      ok := Works();
      if ok {
        objects := objects[name := content];
      }
    }

    /** Removing an object that does not exist is an error too. */
    method Remove(name: string) returns (ok: bool)
      modifies this
      ensures ok ==> name in old(objects) && faults == old(faults)
      ensures !ok && name in old(objects) ==> faults == old(faults) + 1
      ensures faults >= old(faults) && (reliable ==> faults == old(faults))
      ensures objects == if ok then old(objects) - {name} else old(objects)
    {
      ok := Works();
      ok := ok && name in objects;
      if ok {
        objects := objects - {name};
      }
    }

    method GetSize(name: string) returns (r: Reply<nat>)
      modifies this`faults
      ensures faults == if r.Failed? then old(faults) + 1 else old(faults)
      ensures !r.Failed? ==> r == if name in objects then Done(|objects[name]|) else Missing
      ensures reliable ==> !r.Failed?
    {
      var up := Works();
      r := if !up then Failed else if name in objects then Done(|objects[name]|) else Missing;
    }

    method List() returns (r: Reply<seq<string>>)
      modifies this`faults
      ensures faults == if r.Done? then old(faults) else old(faults) + 1
      ensures r.Done? ==> forall n: string :: n in r.value <==> n in objects
      ensures reliable ==> r.Done?
    {
      var up := Works();
      if !up {
        return Failed;
      }
      var left, names := objects.Keys, [];
      while left != {}
        invariant left <= objects.Keys
        invariant forall n: string :: n in names <==> n in objects.Keys - left
        decreases left
      {
        var n :| n in left;
        left, names := left - {n}, names + [n];
      }
      return Done(names);
    }
  }

  // ---------- the container ----------

  class Container {
    const id: string
    const cache: Cache<ExtentId, seq<byte>>
    const backend: Backend
    var size: nat
    var extents: Flags

    ghost predicate Valid()
      reads this, cache, backend
    {
      cache.Valid() && backend.Honest()
    }

    ghost function Snap(): Snapshot
      reads this, cache, backend
    {
      Snapshot(extents, cache.vals, backend.objects)
    }

    constructor (cid: string, extentCache: Cache<ExtentId, seq<byte>>, store: Backend)
      requires extentCache.Valid() && store.Honest()
      ensures id == cid && cache == extentCache && backend == store
      ensures Valid() && size == 0 && extents == []
    {
      id, cache, backend, size, extents := cid, extentCache, store, 0, [];
    }

    function ExtentExists(i: nat): bool
      reads this
    {
      Flagged(extents, i)
    }

    method SetExtentExists(i: U32, exists_: bool)
      requires i < MAX_EXTENTS
      modifies this`extents
      ensures forall j: nat :: Flagged(extents, j) <==> if j == i then exists_ else Flagged(old(extents), j)
      ensures |extents| == if |old(extents)| <= i then i + 1 else |old(extents)|
    {
      if |extents| <= i {
        extents := extents + seq(i + 1 - |extents|, _ => false);
      }
      extents := extents[i := exists_];
    }

    /** The cached extents that others hold on to; there is always room for another one if nothing goes wrong. */
    method InUse() returns (busy: set<ExtentId>)
      requires cache.Valid()
      ensures backend.reliable ==> |DropIdle(cache.order, busy, Surplus(|cache.order|, cache.capacity))| < cache.capacity
    {
      busy := *;
      if backend.reliable {
        busy := {};
      }
      DropIdleKeeps(cache.order, busy, Surplus(|cache.order|, cache.capacity));
    }

    /** Fetches an existing extent into the cache unless it is there. */
    method FindExtent(i: U32) returns (r: Option<seq<byte>>)
      requires Valid() && Agree(id, Snap()) && ExtentExists(i)
      modifies cache, backend`faults
      ensures Valid()
      ensures old(backend.faults) <= backend.faults && (r.None? ==> old(backend.faults) < backend.faults)
      ensures OnlyDrops(old(cache.vals), cache.vals, {ExtentId(id, i)})
      ensures Agree(id, Snap())
      ensures r.Some? ==> ExtentId(id, i) in cache.vals && cache.vals[ExtentId(id, i)] == r.value
      ensures ExtentId(id, i) in cache.vals ==>
                || (&& ExtentId(id, i) in old(cache.vals)
                    && cache.vals[ExtentId(id, i)] == old(cache.vals)[ExtentId(id, i)])
                || cache.vals[ExtentId(id, i)] == backend.objects[Name(id, i)]
    {
      var eid := ExtentId(id, i);
      cache.OtherThreads();
      r := cache.Lookup(eid);
      if r.None? {
        var reply := backend.Read(Name(id, i));
        if reply.Done? {
          var busy := InUse();
          var ok := cache.Insert(eid, reply.value, busy);
          if ok {
            r := Some(reply.value);
          } else {
            backend.faults := backend.faults + 1;
          }
        }
      }
    }

    /** A new extent starts as an empty file: nothing can be cached for it. */
    method NewExtent(i: U32) returns (r: Option<seq<byte>>)
      requires Valid() && Agree(id, Snap()) && !ExtentExists(i)
      modifies cache, backend`faults
      ensures Valid()
      ensures old(backend.faults) <= backend.faults && (r.None? ==> old(backend.faults) < backend.faults)
      ensures OnlyDrops(old(cache.vals), cache.vals, {ExtentId(id, i)})
      ensures r == Some([]) || r == None
      ensures r.Some? <==> ExtentId(id, i) in cache.vals
      ensures r.Some? ==> cache.vals[ExtentId(id, i)] == []
    {
      var eid := ExtentId(id, i);
      cache.OtherThreads();
      r := cache.Lookup(eid);
      if r.None? {
        var busy := InUse();
        var ok := cache.Insert(eid, [], busy);
        if ok {
          r := Some([]);
        } else {
          backend.faults := backend.faults + 1;
        }
      }
    }

    /** The cached file of the extent, which is empty if the extent does not exist yet. */
    method FindOrCreateExtent(i: U32) returns (r: Option<seq<byte>>)
      requires Valid() && Agree(id, Snap())
      modifies cache, backend`faults
      ensures Valid()
      ensures old(backend.faults) <= backend.faults && (r.None? ==> old(backend.faults) < backend.faults)
      ensures OnlyDrops(old(cache.vals), cache.vals, {ExtentId(id, i)})
      ensures r.None? && ExtentId(id, i) in cache.vals ==>
                ExtentExists(i) && ExtentSized(cache.vals[ExtentId(id, i)])
      ensures r.None? && !ExtentExists(i) ==> ExtentId(id, i) !in cache.vals
      ensures r.Some? ==> ExtentId(id, i) in cache.vals && cache.vals[ExtentId(id, i)] == r.value
      ensures r.Some? ==> |r.value| <= CAPACITY && (ExtentExists(i) ==> 0 < |r.value|)
      ensures r.Some? && old(Coherent(id, Snap())) ==> r.value == Content(id, old(Snap()), i)
      ensures ExtentId(id, i) in cache.vals && old(Coherent(id, Snap())) ==>
                cache.vals[ExtentId(id, i)] == Content(id, old(Snap()), i)
    {
      hide Agree, Coherent, OnlyDrops, Distinct, Elements;
      CachedExtent(id, Snap(), i);
      if ExtentExists(i) {
        r := FindExtent(i);
        CachedExtent(id, Snap(), i);
      } else {
        r := NewExtent(i);
      }
    }

    /** Changes the cached file of an extent; a pwrite that fails may have written some of its bytes. */
    method EditFile(i: U32, content: seq<byte>, edit: Edit)
      returns (ok: bool, after: seq<byte>, ghost left: Option<Edit>)
      requires Valid() && Fits(edit)
      requires ExtentId(id, i) in cache.vals
      modifies cache, backend`faults
      ensures Valid()
      ensures old(backend.faults) <= backend.faults && (!ok ==> old(backend.faults) < backend.faults)
      ensures cache.vals == old(cache.vals)[ExtentId(id, i) := after]
      ensures after == Left(content, left) && PartOf(left, edit) && (ok ==> left == Some(edit))
      ensures |content| <= CAPACITY ==> |after| <= CAPACITY
      ensures |content| <= |after| || edit.SetLength?
      ensures !ok && edit.SetLength? ==> after == content
    {
      ok := backend.Works();
      ApplyLength(content, edit);
      if ok {
        after, left := Apply(content, edit), Some(edit);
      } else {
        if edit.Overwrite? {
          var part :| 0 <= part <= |edit.data|;
          after, left := PWrite(content, edit.off, edit.data[..part]), Some(Overwrite(edit.off, edit.data[..part]));
          ApplyLength(content, left.value);
        } else {
          after, left := content, None;
        }
      }
      cache.Overwrite(ExtentId(id, i), after);
    }

    /** The body that write and resize share: find or create the extent, change its file, store it, and
        undo the creation when that fails. The change of an extent that existed is not undone: `left` is what a failed
        call left of it in the cache. */
    method Update(i: U32, edit: Edit) returns (ok: bool, ghost left: Option<Edit>)
      requires Valid() && Agree(id, Snap())
      requires i < MAX_EXTENTS && Fits(edit) && Changes(edit)
      modifies this`extents, cache, backend
      ensures Valid() && Agree(id, Snap())
      ensures old(backend.faults) <= backend.faults && (!ok ==> old(backend.faults) < backend.faults)
      ensures OnlyExtent(id, old(Snap()), Snap(), i)
      ensures !ok ==> extents == old(extents) && backend.objects == old(backend.objects)
      ensures ok ==> ExtentExists(i)
      ensures ok && old(Coherent(id, Snap())) ==>
                Content(id, Snap(), i) == Apply(old(Content(id, Snap(), i)), edit)
      ensures old(Coherent(id, Snap())) && (ok || !old(ExtentExists(i))) ==> Coherent(id, Snap())
      ensures !ok ==> PartOf(left, edit)
      ensures !ok && old(Coherent(id, Snap())) && old(ExtentExists(i)) ==>
                var content := old(Content(id, Snap(), i));
                Coherent(id, Snap()) <==> Left(content, left) == content
    {
      hide Agree, Coherent, OnlyExtent, OnlyDrops, Apply, Left, PartOf, Content, Distinct, Elements;
      ghost var before := Snap();
      left := None;
      NothingLeft(edit, Content(id, before, i));
      var found := FindOrCreateExtent(i);
      if found.None? {
        FailedChange(id, before, Snap(), i, left);
        return false, left;
      }
      ok, left := StoreEdit(i, found.value, edit, before);
    }

    /** The try block: change the file, store it, and on failure undo the creation. */
    method StoreEdit(i: U32, content: seq<byte>, edit: Edit, ghost before: Snapshot)
      returns (ok: bool, ghost left: Option<Edit>)
      requires Valid() && Agree(id, before) && extents == before.flags && backend.objects == before.objects
      requires i < MAX_EXTENTS && Fits(edit) && Changes(edit)
      requires OnlyDrops(before.cache, cache.vals, {ExtentId(id, i)})
      requires ExtentId(id, i) in cache.vals && cache.vals[ExtentId(id, i)] == content
      requires |content| <= CAPACITY && (ExtentExists(i) ==> 0 < |content|)
      requires Coherent(id, before) ==> content == Content(id, before, i)
      modifies this`extents, cache, backend
      ensures Valid() && Agree(id, Snap()) && OnlyExtent(id, before, Snap(), i)
      ensures old(backend.faults) <= backend.faults && (!ok ==> old(backend.faults) < backend.faults)
      ensures !ok ==> extents == before.flags && backend.objects == before.objects
      ensures ok ==> ExtentExists(i)
      ensures ok && Coherent(id, before) ==> Content(id, Snap(), i) == Apply(Content(id, before, i), edit)
      ensures Coherent(id, before) && (ok || !Flagged(before.flags, i)) ==> Coherent(id, Snap())
      ensures !ok ==> PartOf(left, edit)
      ensures !ok && Coherent(id, before) && Flagged(before.flags, i) ==>
                (Coherent(id, Snap()) <==> Left(Content(id, before, i), left) == Content(id, before, i))
    {
      hide Agree, Coherent, OnlyExtent, Apply, PartOf, Content, Distinct, Elements;
      var existed := ExtentExists(i);
      var edited, after;
      edited, after, left := EditFile(i, content, edit);
      ApplyLength(content, edit);
      ok := false;
      if edited {
        ok := backend.Write(Name(id, i), after);
      }
      if !ok {
        if !existed {
          var _ := cache.Erase(ExtentId(id, i), {});
        }
        FailedChange(id, before, Snap(), i, left);
        return;
      }
      SetExtentExists(i, true);
      StoredExtent(id, before, Snap(), i, after);
    }

    /** Stores the part of `data` that fits into the extent at `pos`: `done` bytes, none when it fails. */
    method WriteChunk(pos: nat, data: seq<byte>) returns (ok: bool, done: nat, ghost left: Option<Edit>)
      requires Valid() && Agree(id, Snap())
      requires data != [] && pos + |data| <= MAX_SIZE
      modifies this`extents, cache, backend
      ensures Valid() && Agree(id, Snap())
      ensures old(backend.faults) <= backend.faults && (!ok ==> old(backend.faults) < backend.faults)
      ensures done <= |data| && (ok <==> done > 0)
      ensures Written(id, old(Snap()), Snap(), pos, data[..done])
      ensures !ok ==> extents == old(extents)
      ensures ok ==> done == |data| || (pos + done) % CAPACITY == 0
      ensures old(Coherent(id, Snap())) && (ok || !old(ExtentExists(pos / CAPACITY))) ==> Coherent(id, Snap())
      ensures SameAbove(id, old(Snap()), Snap(), pos / CAPACITY)
      ensures !ok ==> PartOf(left, ChunkAt(pos, data))
      ensures !ok && old(Coherent(id, Snap())) && old(ExtentExists(pos / CAPACITY)) ==>
                var content := old(Content(id, Snap(), pos / CAPACITY));
                Coherent(id, Snap()) <==> Left(content, left) == content
    {
      var i := IndexOf(pos);
      var eoff := pos % CAPACITY;
      done := if CAPACITY - eoff < |data| then CAPACITY - eoff else |data|;
      var chunk := data[..done];
      assert i == pos / CAPACITY && pos == i * CAPACITY + eoff && ChunkAt(pos, data) == Overwrite(eoff, chunk);
      hide IndexOf, ChunkAt, Written, Agree, Coherent, OnlyExtent, IsEnd, SameAbove, Content, Left, PartOf;
      hide Apply, PWrite, Distinct, Elements;
      ok, left := Update(i, Overwrite(eoff, chunk));
      OthersAbove(id, old(Snap()), Snap(), i);
      if ok {
        WrittenChunk(id, old(Snap()), Snap(), pos, i, eoff, chunk);
      } else {
        WrittenNone(id, old(Snap()), Snap(), i, pos);
        done := 0;
        assert data[..done] == [];
      }
    }

    /** Writes chunk by chunk. `done` is how many bytes were stored when the call ended: all of them, or those
        of the chunks before the one that failed; `left` is what the cache keeps of that one. */
    method Write(off: nat, buf: seq<byte>) returns (ok: bool, ghost done: nat, ghost left: Option<Edit>)
      requires Valid() && Agree(id, Snap())
      requires off + |buf| <= MAX_SIZE
      modifies this, cache, backend
      ensures Valid() && Agree(id, Snap())
      ensures old(backend.faults) <= backend.faults && (!ok ==> old(backend.faults) < backend.faults)
      ensures done <= |buf| && (ok <==> done == |buf|) && (backend.reliable ==> ok)
      ensures Written(id, old(Snap()), Snap(), off, buf[..done])
      ensures size == if done == 0 then old(size) else off + done
      ensures old(Coherent(id, Snap())) && (ok || !old(ExtentExists((off + done) / CAPACITY))) ==>
                Coherent(id, Snap())
      ensures !ok ==> PartOf(left, ChunkAt(off + done, buf[done..]))
      ensures !ok && old(Coherent(id, Snap())) && old(ExtentExists((off + done) / CAPACITY)) ==>
                var content := old(Content(id, Snap(), (off + done) / CAPACITY));
                Coherent(id, Snap()) <==> Left(content, left) == content
    {
      hide Written, Agree, Coherent, Content, Left, PartOf, Distinct, Elements;
      ghost var before, now, data := Snap(), Snap(), [];
      var res := 0;
      WrittenNothing(id, before, off);
      while res != |buf|
        invariant 0 <= res <= |buf| && data == buf[..res] && now == Snap()
        invariant Valid() && Agree(id, now)
        invariant old(backend.faults) <= backend.faults
        invariant Written(id, before, now, off, data)
        invariant size == if res == 0 then old(size) else off + res
        invariant res == 0 || res == |buf| || (off + res) % CAPACITY == 0
        invariant Coherent(id, before) ==> Coherent(id, now)
        invariant SameAbove(id, before, now, LastTouched(off, res))
        decreases |buf| - res
      {
        ghost var prev, had := now, data;
        var pos, rest := off + res, buf[res..];
        var stored, r;
        stored, r, left := WriteChunk(pos, rest);
        now, data := Snap(), had + rest[..r];
        WrittenTwice(id, before, prev, now, off, had, pos, rest[..r], data);
        AboveTwice(id, before, prev, now, LastTouched(off, res), pos / CAPACITY);
        if !stored {
          FirstChunkOfExtent(id, before, prev, off, had);
          assert data == buf[..res];
          assert Content(id, prev, pos / CAPACITY) == Content(id, before, pos / CAPACITY);
          return false, res, left;
        }
        if pos + r != size {
          size := pos + r;
        }
        res := res + r;
      }
      return true, res, None;
    }

    /** What the read loop puts into the buffer for the part of `[pos, pos + n)` that lies in one extent. */
    method ReadChunk(pos: nat, n: nat) returns (r: Option<seq<byte>>)
      requires Valid() && Agree(id, Snap())
      requires 0 < n
      modifies cache, backend`faults
      ensures old(backend.faults) <= backend.faults && (r.None? ==> old(backend.faults) < backend.faults)
      ensures Valid() && Agree(id, Snap()) && Frame(id, old(Snap()), Snap())
      ensures old(Coherent(id, Snap())) ==> Coherent(id, Snap())
      ensures r.Some? ==> 0 < |r.value| <= n
      ensures r.Some? && old(Coherent(id, Snap())) ==> IsFound(id, old(Snap()), pos, r.value)
    {
      var i := IndexOf(pos);
      var eoff := pos % CAPACITY;
      var len := if CAPACITY - eoff < n then CAPACITY - eoff else n;
      ghost var before := Snap();
      hide Agree, Coherent, Frame, IsSlice, IsFound, OnlyDrops, ReadFilled, Zeros, IndexOf, Distinct, Elements;
      if ExtentExists(i) {
        var found := FindExtent(i);
        FetchedChunk(id, before, Snap(), i, found, i * CAPACITY + eoff, eoff, len);
        r := if found.None? then None else Some(ReadFilled(found.value, eoff, len));
      } else {
        AbsentChunk(id, before, i, i * CAPACITY + eoff, eoff, len);
        r := Some(Zeros(len));
      }
      if r.Some? && Coherent(id, before) {
        ChunkIsFound(id, before, pos, i, eoff, r.value);
      }
    }

    /** Reads chunk by chunk; `None` is the exception of an extent that cannot be fetched. */
    method Read(off: nat, n: nat) returns (r: Option<seq<byte>>)
      requires Valid() && Agree(id, Snap())
      modifies cache, backend`faults
      ensures old(backend.faults) <= backend.faults && (r.None? ==> old(backend.faults) < backend.faults)
      ensures Valid() && Agree(id, Snap()) && Frame(id, old(Snap()), Snap())
      ensures old(Coherent(id, Snap())) ==> Coherent(id, Snap())
      ensures r.Some? ==> |r.value| == ReadLength(size, off, n)
      ensures backend.reliable ==> r.Some?
      ensures r.Some? && old(Coherent(id, Snap())) ==>
                && IsFound(id, old(Snap()), off, r.value)
                && (off + n <= INDEXED ==> IsSlice(id, old(Snap()), off, r.value))
    {
      hide Agree, Coherent, Frame, IsSlice, Seen, Byte, Distinct, Elements;
      ghost var before := Snap();
      FrameReflexive(id, before);
      var toRead := ReadLength(size, off, n);
      var out: seq<byte> := [];
      while |out| != toRead
        invariant |out| <= toRead <= n
        invariant Valid() && Agree(id, Snap()) && Frame(id, before, Snap())
        invariant old(backend.faults) <= backend.faults
        invariant extents == before.flags && backend.objects == before.objects
        invariant Coherent(id, before) ==> Coherent(id, Snap())
        invariant Coherent(id, before) ==> IsFound(id, before, off, out)
        decreases toRead - |out|
      {
        ghost var prev := Snap();
        var chunk := ReadChunk(off + |out|, toRead - |out|);
        FrameTransitive(id, before, prev, Snap());
        if chunk.None? {
          return None;
        }
        SameBytes(id, before, prev);
        out := out + chunk.value;
      }
      if Coherent(id, before) && off + n <= INDEXED {
        FoundIsSlice(id, before, off, out);
      }
      return Some(out);
    }

    /** One round of the loop of resize: removes the topmost extent, if it exists, and shrinks the size. */
    method RemoveExtent(i: U32) returns (ok: bool)
      requires Valid() && Agree(id, Snap())
      requires forall j: nat :: j > i ==> !Flagged(extents, j)
      modifies this`extents, this`size, cache, backend
      ensures Valid() && Agree(id, Snap())
      ensures old(backend.faults) <= backend.faults && (!ok ==> old(backend.faults) < backend.faults)
      ensures ExtentsBelow(id, old(Snap()), Snap(), if ok then i else i + 1)
      ensures size == if ok then ShrunkSize(old(size)) else old(size)
      ensures old(Coherent(id, Snap())) ==> Coherent(id, Snap())
    {
      hide Agree, Coherent, ExtentsBelow, OnlyExtent, OnlyDrops, Content, ShrunkSize, Distinct, Elements;
      ghost var before := Snap();
      if ExtentExists(i) {
        var _ := cache.Erase(ExtentId(id, i), {});
        ok := backend.Remove(Name(id, i));
        if !ok {
          UnstoredExtent(id, before, Snap(), i);
          UnchangedBelow(id, before, Snap(), i, i + 1);
          return;
        }
        extents := extents[..i];
        RemovedExtent(id, before, Snap(), i);
      } else {
        AllExtentsBelow(id, before, i);
      }
      size := ShrunkSize(size);
      ok := true;
    }

    /** The loop of resize: removes the extents from `rm` on, topmost first, and shrinks the size by one extent
        each time round. `cut` is the number of extents up to which everything is still there. */
    method RemoveAbove(rm: U32) returns (ok: bool, ghost cut: nat)
      requires Valid() && Agree(id, Snap())
      modifies this, cache, backend
      ensures Valid() && Agree(id, Snap())
      ensures old(backend.faults) <= backend.faults && (!ok ==> old(backend.faults) < backend.faults)
      ensures ExtentsBelow(id, old(Snap()), Snap(), cut) && rm <= cut && (ok <==> rm == cut)
      ensures size == ShrunkBy(old(size), if cut < |old(extents)| then |old(extents)| - cut else 0)
      ensures old(Coherent(id, Snap())) ==> Coherent(id, Snap())
    {
      ghost var before, now := Snap(), Snap();
      ghost var top := |extents|;
      var i: int := |extents| - 1;
      ghost var rounds := 0;
      cut := if i + 1 < rm then rm else i + 1;
      AllExtentsBelow(id, before, cut);
      assert size == ShrunkBy(size, rounds);
      hide ExtentsBelow, Agree, Coherent, ShrunkSize, ShrunkBy, Flagged, Distinct, Elements;
      while i >= rm
        invariant i < top && cut == if i + 1 < rm then rm else i + 1
        invariant now == Snap() && Valid() && Agree(id, now)
        invariant old(backend.faults) <= backend.faults
        invariant ExtentsBelow(id, before, now, cut)
        invariant Coherent(id, before) ==> Coherent(id, now)
        invariant rounds == (if cut < top then top - cut else 0) && size == ShrunkBy(old(size), rounds)
        decreases i
      {
        ghost var prev := now;
        NoneAbove(id, before, now, cut);
        var removed := RemoveExtent(i);
        now := Snap();
        BelowTwice(id, before, prev, now, cut, if removed then i else i + 1);
        if !removed {
          return false, cut;
        }
        ShrunkOnce(old(size), rounds);
        i, cut, rounds := i - 1, cut - 1, rounds + 1;
      }
      return true, cut;
    }

    /** Removes what starts at or after the new size, then sets the length of the last extent. When it fails,
        the extents below `cut` are as they were and those above are gone; `left` is what the cache keeps of the new
        length. */
    method Resize(newSize: nat) returns (ok: bool, ghost cut: nat, ghost left: Option<Edit>)
      requires Valid() && Agree(id, Snap())
      requires newSize <= MAX_SIZE
      modifies this, cache, backend
      ensures Valid() && Agree(id, Snap())
      ensures old(backend.faults) <= backend.faults && (!ok ==> old(backend.faults) < backend.faults)
      ensures ok ==> Resized(id, old(Snap()), Snap(), newSize) && size == newSize
      ensures backend.reliable ==> ok
      ensures !ok ==> ExtentsBelow(id, old(Snap()), Snap(), cut) && newSize <= cut * CAPACITY
      ensures !ok ==> size == ShrunkBy(old(size), if cut < |old(extents)| then |old(extents)| - cut else 0)
      ensures old(Coherent(id, Snap())) && (|| ok
                                            || newSize + CAPACITY <= cut * CAPACITY
                                            || (newSize > 0 && !old(ExtentExists((newSize - 1) / CAPACITY)))) ==>
                Coherent(id, Snap())
      ensures !ok && old(Coherent(id, Snap())) && newSize > 0 && old(ExtentExists((newSize - 1) / CAPACITY)) ==>
                var content := old(Content(id, Snap(), (newSize - 1) / CAPACITY));
                Coherent(id, Snap()) <==> Left(content, left) == content
      ensures !ok && newSize > 0 ==> PartOf(left, SetLength((newSize - 1) % CAPACITY + 1))
    {
      var idx := IndexOf(newSize);
      var eoff := newSize % CAPACITY;
      assert newSize == idx * CAPACITY + eoff;
      left := None;
      hide ExtentsBelow, Agree, Coherent, Resized, OnlyExtent, ShrunkBy, IndexOf, Content, Apply, Distinct, Elements;
      ghost var before := Snap();
      var removed, kept := RemoveAbove(if eoff != 0 then idx + 1 else idx);
      ghost var now := Snap();
      if !removed {
        return false, kept, left;
      }
      NoneAbove(id, before, now, kept);
      if eoff == 0 && idx > 0 {
        idx, eoff := idx - 1, CAPACITY;
      }
      if eoff != 0 {
        assert kept == idx + 1 && idx == (newSize - 1) / CAPACITY;
        var stored;
        stored, left := Update(idx, SetLength(eoff));
        if !stored {
          UnchangedBelow(id, now, Snap(), idx, kept);
          BelowTwice(id, before, now, Snap(), kept, kept);
          return false, kept, left;
        }
        ResizedInLast(id, before, now, Snap(), idx, eoff, newSize);
      } else {
        ResizedToNothing(id, before, now);
      }
      assert newSize == idx * CAPACITY + eoff;
      size := newSize;
      return true, kept, None;
    }

    /** One round of the erasing loop. */
    method EraseExtent(i: U32, fromBackend: bool) returns (ok: bool)
      requires Valid() && i < MAX_EXTENTS
      requires ExtentId(id, i) in cache.vals ==> ExtentExists(i)
      modifies this, cache, backend
      ensures Valid() && old(backend.faults) <= backend.faults
      ensures !ok && Name(id, i) in old(backend.objects) ==> old(backend.faults) < backend.faults
      ensures !fromBackend ==> backend.faults == old(backend.faults)
      ensures cache.vals == old(cache.vals) - {ExtentId(id, i)}
      ensures backend.objects == if fromBackend && ok && old(ExtentExists(i)) then old(backend.objects) - {Name(id, i)}
                                 else old(backend.objects)
      ensures |extents| == |old(extents)|
      ensures forall j: nat :: Flagged(extents, j) <==> (Flagged(old(extents), j) && (fromBackend ==> i != j))
      ensures !fromBackend ==> extents == old(extents) && size == old(size)
      ensures fromBackend ==> size == if old(ExtentExists(i)) then ShrunkSize(old(size)) else old(size)
    {
      ok := true;
      if ExtentExists(i) {
        var _ := cache.Erase(ExtentId(id, i), {});
        if fromBackend {
          ok := backend.Remove(Name(id, i));
          SetExtentExists(i, false);
          size := ShrunkSize(size);
        }
      }
    }

    /** Drops the container's extents from the cache. With `fromBackend` the objects and flags go too; a failed
        removal is ignored and leaks its object. */
    method EraseExtents(fromBackend: bool) returns (ghost failed: set<nat>)
      requires Valid()
      requires forall i: U32 :: ExtentId(id, i) in cache.vals ==> Flagged(extents, i)
      modifies this, cache, backend
      ensures Valid() && Uncached(id, Snap())
      ensures old(backend.faults) <= backend.faults
      ensures !fromBackend ==> backend.faults == old(backend.faults)
      ensures backend.faults == old(backend.faults) ==>
                forall i: U32 :: Name(id, i) in old(backend.objects) ==> i !in failed
      ensures ErasedBelow(id, old(Snap()), Snap(), |extents|, fromBackend, failed)
      ensures |extents| == |old(extents)|
      ensures !fromBackend ==> extents == old(extents) && size == old(size) && backend.objects == old(backend.objects)
    {
      failed := {};
      ghost var before, now := Snap(), Snap();
      NothingErased(id, before, fromBackend);
      hide Frame, Distinct, Elements;
      var i := 0;
      while i < |extents|
        invariant 0 <= i <= |extents| == |before.flags| && Valid() && now == Snap()
        invariant ErasedBelow(id, before, now, i, fromBackend, failed)
        invariant forall k <- failed :: k < i
        invariant old(backend.faults) <= backend.faults
        invariant !fromBackend ==> backend.faults == old(backend.faults)
        invariant backend.faults == old(backend.faults) ==>
                    forall j: U32 :: Name(id, j) in before.objects ==> j !in failed
        invariant !fromBackend ==> extents == old(extents) && size == old(size) && backend.objects == before.objects
      {
        ghost var prev := now;
        var ok := EraseExtent(i, fromBackend);
        now := Snap();
        ErasedOneMore(id, before, prev, now, i, fromBackend, failed, ok);
        failed := if ok then failed else failed + {i};
        i := i + 1;
      }
    }

    method DropFromCache()
      requires Valid() && Agree(id, Snap())
      modifies this, cache, backend
      ensures Valid() && Agree(id, Snap()) && Coherent(id, Snap()) && Frame(id, old(Snap()), Snap())
      ensures Uncached(id, Snap())
      ensures extents == old(extents) && size == old(size) && backend.objects == old(backend.objects)
      ensures backend.faults == old(backend.faults)
    {
      ghost var _ := EraseExtents(false);
    }

    /** After unlink an object survives exactly when its removal failed. */
    method Unlink() returns (ghost failed: set<nat>)
      requires Valid() && Agree(id, Snap())
      modifies this, cache, backend
      ensures Valid() && Uncached(id, Snap()) && Frame(id, old(Snap()), Snap())
      ensures old(backend.faults) <= backend.faults
      ensures backend.faults == old(backend.faults) ==> forall i: U32 :: old(ExtentExists(i)) ==> i !in failed
      ensures forall j: nat :: !Flagged(extents, j)
      ensures forall i: U32 :: Name(id, i) in backend.objects <==> (old(ExtentExists(i)) && i in failed)
      ensures backend.reliable ==> forall i: U32 :: Name(id, i) !in backend.objects
      ensures forall n <- backend.objects :: n in old(backend.objects) && backend.objects[n] == old(backend.objects)[n]
    {
      ghost var before := Snap();
      failed := EraseExtents(true);
      forall i: U32
        ensures Name(id, i) in backend.objects <==> (Flagged(before.flags, i) && i in failed)
      {
        assert Flagged(before.flags, i) <==> Name(id, i) in before.objects;
        assert i in Erased(before.flags, |extents|, true, failed) <==> Flagged(before.flags, i) && i !in failed;
      }
      forall n <- backend.objects
        ensures SameObject(before.objects, backend.objects, n)
      {
        if Owns(id, n) {
          OwnedIsNamed(id, n);
        }
      }
    }

    /** The flags that the object names give. */
    method ListExtents(names: seq<string>)
      requires extents == []
      requires forall n <- names :: ParseName(n).Some? && ParseName(n).value.container == id ==>
                                      ParseName(n).value.offset < MAX_EXTENTS
      modifies this`extents
      ensures FlagsListed(id, extents, Elements(names))
    {
      for k := 0 to |names|
        invariant FlagsListed(id, extents, Elements(names[..k]))
      {
        ghost var f := extents;
        var parsed := ParseName(names[k]);
        if parsed.Some? && parsed.value.container == id {
          SetExtentExists(parsed.value.offset, true);
        }
        OneMoreListed(id, f, extents, Elements(names[..k]), names[k]);
        assert Elements(names[..k + 1]) == Elements(names[..k]) + {names[k]};
      }
      assert names[..|names|] == names;
    }

    /** The size from the last extent; `false` when the backend does not tell it. */
    method SizeFromLast() returns (ok: bool)
      requires size == 0
      modifies this`size, backend`faults
      ensures old(backend.faults) <= backend.faults
      ensures old(backend.Honest()) ==> backend.Honest()
      ensures !ok && Agree(id, Snap()) ==> old(backend.faults) < backend.faults
      ensures ok && Agree(id, Snap()) ==> forall e: nat :: IsEnd(id, Snap(), e) ==> size == RestartedSize(e)
    {
      var i := |extents| - 1;
      while i >= 0
        invariant -1 <= i < |extents| && size == 0
        invariant forall j: nat :: j > i ==> !Flagged(extents, j)
      {
        if ExtentExists(i) {
          var reply := backend.GetSize(Name(id, i));
          if !reply.Done? {
            return false;
          }
          size := reply.value;
          if i > 0 {
            size := size + (i - 1) * CAPACITY;
          }
          if Agree(id, Snap()) {
            LastExtentEnds(id, Snap(), i);
            forall e: nat | IsEnd(id, Snap(), e)
              ensures size == RestartedSize(e)
            {
              EndUnique(id, Snap(), e, i * CAPACITY + reply.value);
            }
          }
          return true;
        }
        i := i - 1;
      }
      return true;
    }

    /** Rebuilds flags and size from what the backend lists. A failure leaves an empty container, which its
        manager discards. */
    method Restart() returns (ok: bool)
      requires Valid()
      requires forall i: U32 :: ExtentId(id, i) in cache.vals ==> Flagged(extents, i)
      requires BoundedNames(id, backend.objects)
      modifies this, cache, backend
      ensures Valid() && Uncached(id, Snap()) && Frame(id, old(Snap()), Snap())
      ensures backend.objects == old(backend.objects)
      ensures old(backend.faults) <= backend.faults
      ensures !ok && Restorable(id, backend.objects) ==> old(backend.faults) < backend.faults
      ensures backend.reliable && Restorable(id, backend.objects) ==> ok
      ensures !ok ==> extents == [] && size == 0
      ensures ok ==> FlagsListed(id, extents, backend.objects.Keys)
      ensures ok ==> Coherent(id, Snap()) && (Agree(id, Snap()) <==> Restorable(id, backend.objects))
      ensures ok && Restorable(id, backend.objects) ==>
                forall e: nat :: IsEnd(id, Snap(), e) ==> size == RestartedSize(e)
    {
      ghost var _ := EraseExtents(false);
      extents, size := [], 0;
      var reply := backend.List();
      if !reply.Done? {
        return false;
      }
      ListExtents(reply.value);
      assert Elements(reply.value) == backend.objects.Keys;
      ListedFlagsAgree(id, Snap());
      ok := SizeFromLast();
      if !ok {
        extents, size := [], 0;
      }
    }
  }
}
