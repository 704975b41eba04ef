/** Containers that share one extent cache and one backend namespace. */
module ContainerManager {
  import opened Wrappers
  import opened Values
  import opened ExtentName
  import opened Extent
  import opened ContainerState
  import opened LruCache
  import opened Container

  /** What a step of another container leaves of this one: its flags, every byte, the end of its data, and the
      agreement of flags, cache and backend. */
  ghost predicate Untouched(id: string, s: Snapshot, t: Snapshot)
  {
    && t.flags == s.flags
    && (forall p: nat :: Byte(id, t, p) == Byte(id, s, p))
    && (forall e: nat :: IsEnd(id, t, e) <==> IsEnd(id, s, e))
    && (Agree(id, s) ==> Agree(id, t))
    && (Coherent(id, s) ==> Coherent(id, t))
  }

  /** Names never collide, so an operation on one container leaves every other one untouched. */
  lemma Isolation(id: string, s: Snapshot, t: Snapshot, other: string, flags: Flags)
    requires Frame(id, s, t) && other != id
    ensures Untouched(other, s.(flags := flags), t.(flags := flags))
  {
    var s', t' := s.(flags := flags), t.(flags := flags);
    forall i: U32
      ensures SameObject(s.objects, t.objects, Name(other, i))
    {
      NameIsOwned(other, i);
    }
    forall j: nat
      ensures Content(other, t', j) == Content(other, s', j) && Reach(other, t', j) == Reach(other, s', j)
    {
      if Flagged(flags, j) {
        assert SameObject(s.objects, t.objects, Name(other, j));
      }
    }
  }

  lemma CleanNamesElsewhere(id: string, s: Snapshot, t: Snapshot, other: string)
    requires Frame(id, s, t) && other != id && CleanNames(other, s.objects)
    ensures CleanNames(other, t.objects)
  {
    forall n <- t.objects | ParseName(n).Some? && ParseName(n).value.container == other
      ensures SameObject(s.objects, t.objects, n)
    {
    }
  }

  /** A step within the frame of one container leaves all others untouched. */
  lemma Elsewhere(id: string, s: Snapshot, t: Snapshot)
    requires Frame(id, s, t)
    ensures forall other: string, flags: Flags ::
              other != id ==> Untouched(other, Snapshot(flags, s.cache, s.objects), Snapshot(flags, t.cache, t.objects))
    ensures forall other: string :: other != id && CleanNames(other, s.objects) ==> CleanNames(other, t.objects)
  {
    forall other: string, flags: Flags | other != id
      ensures Untouched(other, Snapshot(flags, s.cache, s.objects), Snapshot(flags, t.cache, t.objects))
    {
      Isolation(id, s, t, other, flags);
    }
    forall other: string | other != id && CleanNames(other, s.objects)
      ensures CleanNames(other, t.objects)
    {
      CleanNamesElsewhere(id, s, t, other);
    }
  }

  lemma CleanNamesLess(id: string, objects: Objects, fewer: Objects)
    requires CleanNames(id, objects)
    requires forall n <- fewer :: n in objects && fewer[n] == objects[n]
    ensures CleanNames(id, fewer)
  {
  }

  datatype Outcome<+T> = Ok(value: T) | NoSuchContainer | ExistsAlready | IoError

  class Manager {
    const cache: Cache<ExtentId, seq<byte>>
    const backend: Backend
    var containers: map<string, Container>

    ghost predicate Valid()
      reads this, cache, backend, containers.Values
    {
      && cache.Valid() && backend.Honest()
      && (forall cid <- containers :: containers[cid].id == cid && containers[cid].cache == cache &&
                                      containers[cid].backend == backend)
      && (forall e <- cache.vals :: e.container in containers)
      && (forall cid: string :: CleanNames(cid, backend.objects))
    }

    /** The container exists and its flags, cached extents and objects agree. */
    ghost predicate Sound(cid: string)
      reads this, cache, backend, containers.Values
    {
      cid in containers && Agree(cid, Snapshot(containers[cid].extents, cache.vals, backend.objects))
    }

    ghost function View(cid: string): Snapshot
      reads this, cache, backend, containers.Values
      requires cid in containers
    {
      Snapshot(containers[cid].extents, cache.vals, backend.objects)
    }

    /** Every container but the one named is where it was and shows what it showed. */
    twostate predicate OthersUntouched(cid: string)
      reads this, cache, backend, containers.Values
    {
      forall d <- old(containers) :: d != cid ==>
                                       && d in containers && containers[d] == old(containers[d])
                                       && containers[d].size == old(containers[d].size)
                                       && Untouched(d, old(View(d)), View(d))
    }

    /** Starts over an existing namespace whose objects are all cleanly named, with an empty cache. */
    constructor (store: Backend, capacity: nat)
      requires 0 < capacity && store.Honest() && forall cid: string :: CleanNames(cid, store.objects)
      ensures Valid() && fresh(cache) && backend == store && containers == map[]
    {
      backend, containers := store, map[];
      cache := new Cache<ExtentId, seq<byte>>(capacity);
    }

    /** The new container is sound exactly when the namespace holds no extent of an earlier one with its id. */
    method Create(cid: string) returns (r: Outcome<()>)
      requires Valid()
      modifies this
      ensures Valid() && OthersUntouched(cid)
      ensures r == if cid in old(containers) then ExistsAlready else Ok(())
      ensures r.Ok? ==>
                && containers.Keys == old(containers).Keys + {cid} && fresh(containers[cid])
                && containers[cid].size == 0 && containers[cid].extents == []
                && (Sound(cid) <==> forall i: U32 :: Name(cid, i) !in backend.objects)
      ensures !r.Ok? ==> containers == old(containers)
    {
      if cid in containers {
        return ExistsAlready;
      }
      var c := new Container(cid, cache, backend);
      containers := containers[cid := c];
      assert forall i: U32 :: !Flagged(c.extents, i);
      r := Ok(());
    }

    method Write(cid: string, off: nat, buf: seq<byte>) returns (r: Outcome<nat>)
      requires Valid() && (cid in containers ==> Sound(cid))
      requires off + |buf| <= MAX_SIZE
      modifies cache, backend, containers.Values
      ensures Valid() && OthersUntouched(cid)
      ensures r.NoSuchContainer? <==> cid !in containers
      ensures r.ExistsAlready? ==> false
      ensures r.IoError? ==> old(backend.faults) < backend.faults && !backend.reliable
      ensures cid in containers ==> Sound(cid)
      ensures r.Ok? ==>
                && r.value == |buf|
                && Written(cid, old(View(cid)), View(cid), off, buf)
                && (old(Coherent(cid, View(cid))) ==> Coherent(cid, View(cid)))
    {
      if cid !in containers {
        return NoSuchContainer;
      }
      var c := containers[cid];
      ghost var s := c.Snap();
      var ok, done, _ := c.Write(off, buf);
      CleanNamesKept(cid, s, c.Snap());
      Elsewhere(cid, s, c.Snap());
      assert ok ==> buf[..done] == buf;
      r := if ok then Ok(|buf|) else IoError;
    }

    method Resize(cid: string, size: nat) returns (r: Outcome<()>)
      requires Valid() && (cid in containers ==> Sound(cid))
      requires size <= MAX_SIZE
      modifies cache, backend, containers.Values
      ensures Valid() && OthersUntouched(cid)
      ensures r.NoSuchContainer? <==> cid !in containers
      ensures r.ExistsAlready? ==> false
      ensures r.IoError? ==> old(backend.faults) < backend.faults && !backend.reliable
      ensures cid in containers ==> Sound(cid)
      ensures r.Ok? ==>
                && Resized(cid, old(View(cid)), View(cid), size) && containers[cid].size == size
                && (old(Coherent(cid, View(cid))) ==> Coherent(cid, View(cid)))
    {
      if cid !in containers {
        return NoSuchContainer;
      }
      var c := containers[cid];
      ghost var s := c.Snap();
      var ok, cut, _ := c.Resize(size);
      CleanNamesKept(cid, s, c.Snap());
      Elsewhere(cid, s, c.Snap());
      r := if ok then Ok(()) else IoError;
    }

    method Read(cid: string, off: nat, n: nat) returns (r: Outcome<seq<byte>>)
      requires Valid() && (cid in containers ==> Sound(cid))
      modifies cache, backend`faults
      ensures Valid() && OthersUntouched(cid)
      ensures r.NoSuchContainer? <==> cid !in containers
      ensures r.ExistsAlready? ==> false
      ensures r.IoError? ==> old(backend.faults) < backend.faults && !backend.reliable
      ensures cid in containers ==> Sound(cid) && Untouched(cid, old(View(cid)), View(cid))
      ensures r.Ok? ==>
                && |r.value| == ReadLength(containers[cid].size, off, n)
                && (old(Coherent(cid, View(cid))) ==> IsFound(cid, old(View(cid)), off, r.value))
                && (old(Coherent(cid, View(cid))) && off + n <= INDEXED ==> IsSlice(cid, old(View(cid)), off, r.value))
    {
      if cid !in containers {
        return NoSuchContainer;
      }
      var c := containers[cid];
      ghost var s := c.Snap();
      var got := c.Read(off, n);
      SameFile(cid, s, c.Snap());
      Elsewhere(cid, s, c.Snap());
      r := if got.Some? then Ok(got.value) else IoError;
    }

    method DropFromCache(cid: string) returns (r: Outcome<()>)
      requires Valid() && (cid in containers ==> Sound(cid))
      modifies cache, backend, containers.Values
      ensures Valid() && OthersUntouched(cid)
      ensures r == if cid in containers then Ok(()) else NoSuchContainer
      ensures backend.objects == old(backend.objects) && backend.faults == old(backend.faults)
      ensures r.Ok? ==>
                && Sound(cid) && Coherent(cid, View(cid)) && Uncached(cid, View(cid))
                && containers[cid].extents == old(containers[cid].extents)
                && containers[cid].size == old(containers[cid].size)
    {
      if cid !in containers {
        return NoSuchContainer;
      }
      var c := containers[cid];
      ghost var s := c.Snap();
      c.DropFromCache();
      Elsewhere(cid, s, c.Snap());
      r := Ok(());
    }

    /** Forgets the container and erases its extents; those whose removal fails stay behind in the backend. */
    method Unlink(cid: string) returns (r: Outcome<()>, ghost failed: set<nat>)
      requires Valid() && (cid in containers ==> Sound(cid))
      modifies this, cache, backend, containers.Values
      ensures Valid() && OthersUntouched(cid)
      ensures r == if cid in old(containers) then Ok(()) else NoSuchContainer
      ensures containers == old(containers) - {cid}
      ensures r.Ok? ==> forall i: U32 :: Name(cid, i) in backend.objects <==>
                          (Flagged(old(containers[cid].extents), i) && i in failed)
      ensures r.Ok? && (backend.faults == old(backend.faults) || backend.reliable) ==>
                forall i: U32 :: Name(cid, i) !in backend.objects
    {
      failed := {};
      if cid !in containers {
        return NoSuchContainer, failed;
      }
      var c := containers[cid];
      ghost var s := c.Snap();
      containers := containers - {cid};
      failed := c.Unlink();
      Elsewhere(cid, s, c.Snap());
      CleanNamesLess(cid, s.objects, backend.objects);
      r := Ok(());
    }

    /** Brings a container back from what the namespace holds, unless it is running. */
    method Restart(cid: string) returns (r: Outcome<()>)
      requires Valid()
      modifies this, cache, backend
      ensures Valid() && OthersUntouched(cid)
      ensures backend.objects == old(backend.objects)
      ensures r.Ok? || (r.IoError? && old(backend.faults) < backend.faults && !backend.reliable)
      ensures cid in old(containers) ==> r.Ok? && containers == old(containers)
      ensures cid !in old(containers) && r.Ok? ==>
                && containers.Keys == old(containers).Keys + {cid}
                && Sound(cid) && Coherent(cid, View(cid))
                && forall e: nat :: IsEnd(cid, View(cid), e) ==> containers[cid].size == RestartedSize(e)
      ensures !r.Ok? ==> containers == old(containers)
    {
      if cid in containers {
        return Ok(());
      }
      var c := new Container(cid, cache, backend);
      ghost var s := c.Snap();
      CleanNamesBounded(cid, backend.objects);
      CleanIsRestorable(cid, backend.objects);
      var ok := c.Restart();
      if ok {
        containers := containers[cid := c];
      }
      Elsewhere(cid, s, c.Snap());
      r := if ok then Ok(()) else IoError;
    }
  }
}
