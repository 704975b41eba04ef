/** The local backend's files. Overwriting an object renames a new file over the old one, so a descriptor that
    stays open keeps the old contents: descriptors are cached by path and must not outlive what they show. */
module LocalConnection {
  import opened Wrappers
  import opened Values
  import opened Collections
  import opened Extent
  import opened LruCache
  import opened ObjectStore

  datatype Path = Path(ns: string, name: string)
  datatype Slice = Slice(offset: nat, size: nat)
  datatype ObjectReads = ObjectReads(name: string, slices: seq<Slice>)

  const DESCRIPTORS: nat := 32

  // ---------- what a partial read should return ----------

  predicate Readable(content: Content, s: Slice)
  {
    |PRead(content, s.offset, s.size)| == s.size
  }

  /** All slices of one object, or nothing when one of them is short. */
  function SlicesOf(content: Content, slices: seq<Slice>): Option<seq<Content>>
  {
    if forall s <- slices :: Readable(content, s)
    then Some(seq(|slices|, i requires 0 <= i < |slices| => PRead(content, slices[i].offset, slices[i].size)))
    else None
  }

  /** A slice can be read exactly if it is empty or lies within the content. */
  predicate Within(content: Content, s: Slice)
  {
    s.size == 0 || s.offset + s.size <= |content|
  }

  /** The answer has the bytes of each slice, in the order of the slices. */
  ghost predicate HasSlices(content: Content, slices: seq<Slice>, answer: seq<Content>)
  {
    && |answer| == |slices|
    && forall i :: 0 <= i < |slices| ==>
         && Within(content, slices[i]) && |answer[i]| == slices[i].size
         && forall k :: 0 <= k < slices[i].size ==> answer[i][k] == content[slices[i].offset + k]
  }

  lemma SlicesAre(content: Content, slices: seq<Slice>)
    ensures SlicesOf(content, slices).Some? <==> forall i :: 0 <= i < |slices| ==> Within(content, slices[i])
    ensures SlicesOf(content, slices).Some? ==> HasSlices(content, slices, SlicesOf(content, slices).value)
  {
    forall i | 0 <= i < |slices|
      ensures slices[i] in slices
      ensures Readable(content, slices[i]) <==> Within(content, slices[i])
    {
      PReadIs(content, slices[i].offset, slices[i].size);
    }
    if SlicesOf(content, slices).Some? {
      var answer := SlicesOf(content, slices).value;
      forall i | 0 <= i < |slices|
        ensures |answer[i]| == slices[i].size
        ensures forall k :: 0 <= k < slices[i].size ==> answer[i][k] == content[slices[i].offset + k]
      {
        PReadIs(content, slices[i].offset, slices[i].size);
        hide PRead;
      }
    }
    hide PRead;
  }

  /** All slices of all objects, read from the whole current objects. */
  function ReadAll(objects: Objects, wanted: seq<ObjectReads>): Option<seq<seq<Content>>>
  {
    if forall w <- wanted :: w.name in objects && SlicesOf(objects[w.name], w.slices).Some?
    then Some(seq(|wanted|, i requires 0 <= i < |wanted| =>
                                var w := wanted[i]; assert w in wanted; SlicesOf(objects[w.name], w.slices).value))
    else None
  }

  /** The answer to a partial read of several objects. */
  ghost predicate HasAll(objects: Objects, wanted: seq<ObjectReads>, answer: seq<seq<Content>>)
  {
    && |answer| == |wanted|
    && forall j :: 0 <= j < |wanted| ==>
         wanted[j].name in objects && HasSlices(objects[wanted[j].name], wanted[j].slices, answer[j])
  }

  ghost predicate AllWithin(objects: Objects, wanted: seq<ObjectReads>)
  {
    forall j :: 0 <= j < |wanted| ==>
      && wanted[j].name in objects
      && forall i :: 0 <= i < |wanted[j].slices| ==> Within(objects[wanted[j].name], wanted[j].slices[i])
  }

  /** A partial read succeeds exactly if all objects are there and all slices lie within them, and then has the bytes of
      each. */
  lemma ReadAllIs(objects: Objects, wanted: seq<ObjectReads>)
    ensures ReadAll(objects, wanted).Some? <==> AllWithin(objects, wanted)
    ensures ReadAll(objects, wanted).Some? ==> HasAll(objects, wanted, ReadAll(objects, wanted).value)
  {
    hide SlicesOf, Within, HasSlices;
    forall j | 0 <= j < |wanted|
      ensures wanted[j] in wanted
      ensures wanted[j].name in objects ==>
                var w := wanted[j];
                && (SlicesOf(objects[w.name], w.slices).Some? <==>
                    forall i :: 0 <= i < |w.slices| ==> Within(objects[w.name], w.slices[i]))
                && (SlicesOf(objects[w.name], w.slices).Some? ==>
                    HasSlices(objects[w.name], w.slices, SlicesOf(objects[w.name], w.slices).value))
    {
      if wanted[j].name in objects {
        SlicesAre(objects[wanted[j].name], wanted[j].slices);
      }
    }
  }

  /** The loop over the slices of one open file. */
  method ReadSlices(content: Content, slices: seq<Slice>) returns (r: Option<seq<Content>>)
    ensures r == SlicesOf(content, slices)
  {
    var out: seq<Content> := [];
    for k := 0 to |slices|
      invariant |out| == k
      invariant forall j :: 0 <= j < k ==>
                  Readable(content, slices[j]) && out[j] == PRead(content, slices[j].offset, slices[j].size)
    {
      var got := PRead(content, slices[k].offset, slices[k].size);
      if |got| != slices[k].size {
        assert slices[k] in slices && !Readable(content, slices[k]);
        return None;
      }
      out := out + [got];
    }
    assert SlicesOf(content, slices).Some? && out == SlicesOf(content, slices).value;
    return Some(out);
  }

  /** The fallback of partial_read: every object is fetched as a whole and its slices are read from the copy. */
  method FallbackRead(objects: Objects, wanted: seq<ObjectReads>) returns (r: Option<seq<seq<Content>>>)
    ensures r == ReadAll(objects, wanted)
    ensures (r.Some? <==> AllWithin(objects, wanted)) && (r.Some? ==> HasAll(objects, wanted, r.value))
  {
    ReadAllIs(objects, wanted);
    hide AllWithin, HasAll, SlicesOf;
    var out: seq<seq<Content>> := [];
    for k := 0 to |wanted|
      invariant |out| == k
      invariant forall j :: 0 <= j < k ==>
                  wanted[j].name in objects && SlicesOf(objects[wanted[j].name], wanted[j].slices) == Some(out[j])
    {
      var w := wanted[k];
      assert w in wanted;
      if w.name !in objects {
        return None;
      }
      var got := ReadSlices(objects[w.name], w.slices);
      if got.None? {
        return None;
      }
      out := out + [got.value];
    }
    assert ReadAll(objects, wanted).Some? && out == ReadAll(objects, wanted).value;
    return Some(out);
  }

  // ---------- directory entries and files ----------

  type Files = map<Path, nat>
  type Inodes = map<nat, Content>

  ghost predicate Linked(files: Files, inodes: Inodes)
  {
    forall p <- files :: files[p] in inodes
  }

  /** The objects of a namespace. */
  ghost function ObjectsIn(files: Files, inodes: Inodes, ns: string): Objects
    requires Linked(files, inodes)
  {
    map p | p in files && p.ns == ns :: p.name := inodes[files[p]]
  }

  lemma ObjectAt(files: Files, inodes: Inodes, ns: string, name: string)
    requires Linked(files, inodes)
    ensures name in ObjectsIn(files, inodes, ns) <==> Path(ns, name) in files
    ensures Path(ns, name) in files ==> ObjectsIn(files, inodes, ns)[name] == inodes[files[Path(ns, name)]]
  {
  }

  lemma ObjectPut(files: Files, inodes: Inodes, p: Path, i: nat, data: Content, m: string)
    requires Linked(files, inodes) && i !in inodes
    ensures Linked(files[p := i], inodes[i := data])
    ensures ObjectsIn(files[p := i], inodes[i := data], m)
         == if m == p.ns then ObjectsIn(files, inodes, m)[p.name := data] else ObjectsIn(files, inodes, m)
  {
    hide ObjectsIn;
    var before, after := ObjectsIn(files, inodes, m), ObjectsIn(files[p := i], inodes[i := data], m);
    forall n: string
      ensures n in after <==> n in before || (m == p.ns && n == p.name)
      ensures n in after ==> after[n] == if m == p.ns && n == p.name then data else before[n]
    {
      ObjectAt(files, inodes, m, n);
      ObjectAt(files[p := i], inodes[i := data], m, n);
    }
  }

  lemma ObjectCut(files: Files, inodes: Inodes, p: Path, m: string)
    requires Linked(files, inodes)
    ensures Linked(files - {p}, inodes)
    ensures ObjectsIn(files - {p}, inodes, m)
         == if m == p.ns then ObjectsIn(files, inodes, m) - {p.name} else ObjectsIn(files, inodes, m)
  {
  }

  function FilesOutside(files: Files, ns: string): Files
  {
    map p | p in files && p.ns != ns :: files[p]
  }

  lemma ObjectsOutside(files: Files, inodes: Inodes, ns: string, m: string)
    requires Linked(files, inodes)
    ensures Linked(FilesOutside(files, ns), inodes)
    ensures ObjectsIn(FilesOutside(files, ns), inodes, m) == if m == ns then map[] else ObjectsIn(files, inodes, m)
  {
  }

  /** Every cached descriptor is open on the file that its path leads to. */
  ghost predicate Fresh(files: Files, cached: map<Path, nat>)
  {
    forall p <- cached :: p in files && cached[p] == files[p]
  }

  ghost predicate Proper(namespaces: set<string>, files: Files)
  {
    forall p <- files :: p.ns in namespaces && FileName(p.name)
  }

  /** Names that lead to a file of the namespace or nowhere. */
  predicate Inside(name: string)
  {
    FileName(name) || Nested(name)
  }

  // ---------- the backend ----------

  class Connection {
    var namespaces: set<string>
    /** Directory entries and the files they lead to; a file's contents never change. */
    var files: map<Path, nat>
    var inodes: map<nat, Content>
    var nextInode: nat
    const descriptors: Cache<Path, nat>
    const md5: Digest

    ghost predicate Valid()
      reads this, descriptors
    {
      && descriptors.Valid() && Fresh(files, descriptors.vals)
      && Linked(files, inodes) && Proper(namespaces, files)
      && forall i <- inodes :: i < nextInode
    }

    ghost function ObjectsOf(ns: string): Objects
      reads this, descriptors
      requires Valid()
    {
      ObjectsIn(files, inodes, ns)
    }

    constructor (digest: Digest)
      ensures Valid() && fresh(descriptors) && md5 == digest && namespaces == {} && files == map[]
    {
      namespaces, files, inodes, nextInode, md5 := {}, map[], map[], 0, digest;
      descriptors := new Cache<Path, nat>(DESCRIPTORS);
    }

    method CreateNamespace(ns: string, mustNotExist: bool) returns (ok: bool)
      requires Valid()
      modifies this`namespaces
      ensures Valid()
      ensures ok <==> !(mustNotExist && ns in old(namespaces))
      ensures namespaces == if ok then old(namespaces) + {ns} else old(namespaces)
      ensures ok && ns !in old(namespaces) ==> ObjectsOf(ns) == map[]
    {
      ok := !(mustNotExist && ns in namespaces);
      if ok {
        namespaces := namespaces + {ns};
      }
    }

    /** verify_tag_ on the files. */
    method VerifyTag(ns: string, cond: Option<Condition>) returns (bad: Option<Error>)
      requires Valid() && OnFile(cond)
      ensures cond.None? ==> bad == None
      ensures bad == if cond.Some? && ns !in namespaces then Some(NamespaceMissing)
                     else ObjectStore.VerifyTag(ObjectsOf(ns), cond, md5)
    {
      if cond.None? {
        return None;
      }
      var p := Path(ns, cond.value.name);
      ObjectAt(files, inodes, ns, cond.value.name);
      if p !in files {
        return if ns !in namespaces then Some(NamespaceMissing) else Some(ObjectMissing);
      }
      return if md5(inodes[files[p]]) != md5(cond.value.expected) then Some(AssertionFailed) else None;
    }

    /** write_ and write_tag_ under the lock: verify, then put a new file in place of the old one and forget the
        old one's descriptor. */
    method Write(ns: string, name: string, data: Content, overwrite: bool, cond: Option<Condition>)
      returns (bad: Option<Error>)
      requires Valid() && Inside(name) && OnFile(cond)
      modifies this`files, this`inodes, this`nextInode, descriptors
      ensures Valid()
      ensures forall m: string :: m != ns ==> ObjectsOf(m) == old(ObjectsOf(m))
      ensures ns in namespaces ==>
                match LocalWrite(old(ObjectsOf(ns)), name, data, overwrite, cond, md5)
                case Done(objects) => bad == None && ObjectsOf(ns) == objects
                case Failed(e) => bad == Some(e) && ObjectsOf(ns) == old(ObjectsOf(ns))
      ensures ns !in namespaces ==>
                && bad == Some(if cond.Some? then NamespaceMissing else StoreError)
                && ObjectsOf(ns) == old(ObjectsOf(ns))
    {
      KindsOfNames(name);
      hide ObjectsIn, ObjectStore.VerifyTag, Linked, Distinct, Elements, FileName, Directory, Nested;
      ghost var files0, inodes0 := files, inodes;
      bad := VerifyTag(ns, cond);
      if bad.Some? {
        return;
      }
      var dst := Path(ns, name);
      var preExists := dst in files;
      ObjectAt(files, inodes, ns, name);
      if preExists && !overwrite {
        return Some(AssertionFailed);
      }
      if ns !in namespaces || !FileName(name) {
        return Some(StoreError);
      }
      files, inodes, nextInode := files[dst := nextInode], inodes[nextInode := data], nextInode + 1;
      if preExists {
        descriptors.EraseNoEvict(dst);
      }
      forall m: string
        ensures Linked(files, inodes)
        ensures ObjectsIn(files, inodes, m)
             == if m == ns then ObjectsIn(files0, inodes0, m)[name := data] else ObjectsIn(files0, inodes0, m)
      {
        ObjectPut(files0, inodes0, dst, nextInode - 1, data, m);
      }
    }

    method Remove(ns: string, name: string, mayNotExist: bool, cond: Option<Condition>) returns (bad: Option<Error>)
      requires Valid() && Inside(name) && OnFile(cond)
      modifies this`files, descriptors
      ensures Valid()
      ensures forall m: string :: m != ns ==> ObjectsOf(m) == old(ObjectsOf(m))
      ensures ns in namespaces ==>
                match LocalRemove(old(ObjectsOf(ns)), name, mayNotExist, cond, md5)
                case Done(objects) => bad == None && ObjectsOf(ns) == objects
                case Failed(e) => bad == Some(e) && ObjectsOf(ns) == old(ObjectsOf(ns))
      ensures ns !in namespaces ==> bad == Some(NamespaceMissing) && ObjectsOf(ns) == old(ObjectsOf(ns))
    {
      KindsOfNames(name);
      hide ObjectsIn, Linked, Distinct, Elements, FileName, Directory, Nested;
      ghost var files0 := files;
      bad := VerifyTag(ns, cond);
      if bad.Some? {
        return;
      }
      var src := Path(ns, name);
      ObjectAt(files, inodes, ns, name);
      if src in files {
        files := files - {src};
        descriptors.EraseNoEvict(src);
        forall m: string
          ensures Linked(files, inodes)
          ensures ObjectsIn(files, inodes, m)
               == if m == ns then ObjectsIn(files0, inodes, m) - {name} else ObjectsIn(files0, inodes, m)
        {
          ObjectCut(files0, inodes, src, m);
        }
      } else if ns !in namespaces {
        return Some(NamespaceMissing);
      } else if !mayNotExist {
        return Some(ObjectMissing);
      }
    }

    /** Moves the namespace's directory away, then forgets the descriptors of the files that were directly in it. */
    method DeleteNamespace(ns: string) returns (ok: bool)
      requires Valid()
      modifies this`namespaces, this`files, descriptors
      ensures Valid()
      ensures ok <==> ns in old(namespaces)
      ensures namespaces == old(namespaces) - {ns}
      ensures forall m: string :: ObjectsOf(m) == if m == ns then map[] else old(ObjectsOf(m))
    {
      if ns !in namespaces {
        assert ObjectsOf(ns) == map[];
        return false;
      }
      ghost var files0 := files;
      namespaces := namespaces - {ns};
      files := FilesOutside(files, ns);
      forall m: string
        ensures Linked(files, inodes)
        ensures ObjectsIn(files, inodes, m) == if m == ns then map[] else ObjectsIn(files0, inodes, m)
      {
        ObjectsOutside(files0, inodes, ns, m);
      }
      ForgetDescriptors(ns);
      return true;
    }

    /** The loop over the cached keys: those whose parent directory is the namespace's go. */
    method ForgetDescriptors(ns: string)
      requires descriptors.Valid()
      requires forall p <- descriptors.vals :: FileName(p.name)
      modifies descriptors
      ensures descriptors.Valid()
      ensures forall p <- descriptors.vals :: p.ns != ns
      ensures forall p <- old(descriptors.vals) :: p.ns != ns ==> p in descriptors.vals
      ensures forall p <- descriptors.vals ::
                p in old(descriptors.vals) && descriptors.vals[p] == old(descriptors.vals)[p]
    {
      var keys := descriptors.order;
      for k := 0 to |keys|
        invariant descriptors.Valid()
        invariant forall p <- descriptors.vals ::
                    p in old(descriptors.vals) && descriptors.vals[p] == old(descriptors.vals)[p]
        invariant forall j :: 0 <= j < k && keys[j].ns == ns && FileName(keys[j].name) ==> keys[j] !in descriptors.vals
        invariant forall p <- old(descriptors.vals) :: p.ns != ns ==> p in descriptors.vals
      {
        if keys[k].ns == ns && FileName(keys[k].name) {
          descriptors.EraseNoEvict(keys[k]);
        }
      }
      forall p <- descriptors.vals
        ensures p.ns != ns
      {
        assert p in Elements(keys);
      }
    }

    /** Opens the object unless its descriptor is cached. */
    method Open(ns: string, name: string) returns (inode: Option<nat>)
      requires Valid() && Inside(name)
      modifies descriptors
      ensures Valid()
      ensures inode == if Path(ns, name) in files then Some(files[Path(ns, name)]) else None
      ensures inode.Some? ==> descriptors.order != [] && descriptors.order[|descriptors.order| - 1] == Path(ns, name)
    {
      var p := Path(ns, name);
      inode := descriptors.Lookup(p);
      if inode.None? && p in files {
        DropIdleKeeps(descriptors.order, {}, Surplus(|descriptors.order|, descriptors.capacity));
        var ok := descriptors.Insert(p, files[p], {});
        inode := Some(files[p]);
      }
    }

    /** A partial read through cached descriptors returns what the whole current objects hold. */
    method PartialRead(ns: string, wanted: seq<ObjectReads>) returns (r: Option<seq<seq<Content>>>)
      requires Valid() && forall w <- wanted :: Inside(w.name)
      modifies descriptors
      ensures Valid()
      ensures r == ReadAll(ObjectsOf(ns), wanted)
      ensures r.Some? <==> AllWithin(ObjectsOf(ns), wanted)
      ensures r.Some? ==> HasAll(ObjectsOf(ns), wanted, r.value)
    {
      hide *;
      r := ReadCached(ns, wanted);
      ReadAllIs(ObjectsOf(ns), wanted);
    }

    /** The loop over the objects. */
    method ReadCached(ns: string, wanted: seq<ObjectReads>) returns (r: Option<seq<seq<Content>>>)
      requires Valid() && forall w <- wanted :: Inside(w.name)
      modifies descriptors
      ensures Valid()
      ensures r == ReadAll(ObjectsOf(ns), wanted)
    {
      hide ObjectsIn, SlicesOf;
      var out: seq<seq<Content>> := [];
      ghost var objects := ObjectsOf(ns);
      for k := 0 to |wanted|
        invariant Valid() && objects == ObjectsOf(ns)
        invariant |out| == k
        invariant forall j :: 0 <= j < k ==>
                    wanted[j].name in objects && SlicesOf(objects[wanted[j].name], wanted[j].slices) == Some(out[j])
      {
        var w := wanted[k];
        assert w in wanted;
        var inode := Open(ns, w.name);
        ObjectAt(files, inodes, ns, w.name);
        if inode.None? {
          return None;
        }
        var got := ReadSlices(inodes[inode.value], w.slices);
        if got.None? {
          return None;
        }
        out := out + [got.value];
      }
      assert ReadAll(objects, wanted).Some? && out == ReadAll(objects, wanted).value;
      return Some(out);
    }
  }
}
