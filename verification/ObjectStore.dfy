/** Conditional writes and removals of objects in one namespace: what the local backend does step by step under
    its lock, and what the ALBA backend does with a sequence of assertions and updates. */
module ObjectStore {
  import opened Wrappers
  import opened Values

  type Content = seq<byte>
  type Digest = Content -> int

  ghost predicate Injective(digest: Digest)
  {
    forall a: Content, b: Content :: digest(a) == digest(b) ==> a == b
  }

  /** An object must carry the tag of this content. */
  datatype Condition = Condition(name: string, expected: Content)

  datatype Error = AssertionFailed | ObjectMissing | NamespaceMissing | StoreError
  datatype Outcome = Done(objects: Objects) | Failed(error: Error)

  // ---------- the local backend ----------

  /** The name of a directory entry that a namespace can have: its directory holds files only. */
  predicate FileName(name: string)
  {
    !Directory(name) && '/' !in name
  }

  /** The names without a slash that lead to a directory: the namespace's own or the one above it. */
  predicate Directory(name: string)
  {
    name == "" || name == "." || name == ".."
  }

  /** The name goes on below what can only be a file, so its path leads nowhere. */
  predicate Nested(name: string)
  {
    exists i :: 0 <= i < |name| && name[i] == '/' && FileName(name[..i])
  }

  /** All names but those that begin with a slash or with a directory and a slash. */
  predicate Covered(name: string)
  {
    FileName(name) || Directory(name) || Nested(name)
  }

  lemma KindsOfNames(name: string)
    ensures FileName(name) ==> !Nested(name) && !Directory(name)
    ensures Directory(name) ==> !Nested(name)
  {
  }

  predicate OnFile(cond: Option<Condition>)
  {
    cond.Some? ==> FileName(cond.value.name)
  }

  /** verify_tag_: `None` when the condition holds. */
  function VerifyTag(objects: Objects, cond: Option<Condition>, md5: Digest): Option<Error>
  {
    if cond.None? then None
    else if cond.value.name !in objects then Some(ObjectMissing)
    else if md5(objects[cond.value.name]) != md5(cond.value.expected) then Some(AssertionFailed)
    else None
  }

  /** Something is where the name leads: a file of the namespace, or a directory. */
  predicate PathExists(objects: Objects, name: string)
    requires Covered(name)
  {
    Directory(name) || (FileName(name) && name in objects)
  }

  /** copy_, behind write_ and write_tag_. */
  function LocalWrite(objects: Objects, name: string, data: Content, overwrite: bool, cond: Option<Condition>,
                      md5: Digest): Outcome
    requires Covered(name) && OnFile(cond)
  {
    var bad := VerifyTag(objects, cond, md5);
    if bad.Some? then Failed(bad.value)
    else if PathExists(objects, name) && !overwrite then Failed(AssertionFailed)
    else if !FileName(name) then Failed(StoreError)
    else Done(objects[name := data])
  }

  /** The one removal of a directory that succeeds: the empty name leads to the directory of a namespace without
      objects, and that goes. */
  predicate RemovesNamespace(objects: Objects, name: string, cond: Option<Condition>)
  {
    name == "" && objects == map[] && cond.None?
  }

  /** remove_. */
  function LocalRemove(objects: Objects, name: string, mayNotExist: bool, cond: Option<Condition>,
                       md5: Digest): Outcome
    requires Covered(name) && OnFile(cond) && !RemovesNamespace(objects, name, cond)
  {
    var bad := VerifyTag(objects, cond, md5);
    if bad.Some? then Failed(bad.value)
    else if PathExists(objects, name) then
      if Directory(name) then Failed(StoreError) else Done(objects - {name})
    else if !mayNotExist then Failed(ObjectMissing)
    else Done(objects)
  }

  // ---------- sequences ----------

  datatype Assert = Exists(name: string) | DoesNotExist(name: string) | HasChecksum(name: string, checksum: int)
  datatype Update = Upload(name: string, data: Content) | Delete(name: string)

  predicate Holds(a: Assert, objects: Objects, sha1: Digest)
  {
    match a
    case Exists(n) => n in objects
    case DoesNotExist(n) => n !in objects
    case HasChecksum(n, c) => n in objects && sha1(objects[n]) == c
  }

  /** Deleting an object that is not there does nothing. */
  function Updated(u: Update, objects: Objects): Objects
  {
    match u
    case Upload(n, data) => objects[n := data]
    case Delete(n) => objects - {n}
  }

  function UpdatedAll(updates: seq<Update>, objects: Objects): Objects
  {
    if updates == [] then objects
    else Updated(updates[|updates| - 1], UpdatedAll(updates[..|updates| - 1], objects))
  }

  /** All assertions are tested against the objects before any update; one that does not hold refuses all. */
  function ApplySequence(asserts: seq<Assert>, updates: seq<Update>, objects: Objects, sha1: Digest): Outcome
  {
    if forall a <- asserts :: Holds(a, objects, sha1) then Done(UpdatedAll(updates, objects))
    else Failed(AssertionFailed)
  }

  class Sequence {
    var asserts: seq<Assert>
    var updates: seq<Update>

    constructor ()
      ensures asserts == [] && updates == []
    {
      asserts, updates := [], [];
    }

    method AddAssertExists(name: string, exist: bool)
      modifies this`asserts
      ensures asserts == old(asserts) + [if exist then Exists(name) else DoesNotExist(name)]
    {
      if exist {
        asserts := asserts + [Exists(name)];
      } else {
        asserts := asserts + [DoesNotExist(name)];
      }
    }

    method AddAssertCondition(cond: Condition, sha1: Digest)
      modifies this`asserts
      ensures asserts == old(asserts) + [HasChecksum(cond.name, sha1(cond.expected))]
    {
      asserts := asserts + [HasChecksum(cond.name, sha1(cond.expected))];
    }

    method AddWrite(name: string, data: Content)
      modifies this`updates
      ensures updates == old(updates) + [Upload(name, data)]
    {
      updates := updates + [Upload(name, data)];
    }

    method AddDelete(name: string)
      modifies this`updates
      ensures updates == old(updates) + [Delete(name)]
    {
      updates := updates + [Delete(name)];
    }

    /** What the proxy does with the sequence. */
    method Apply(objects: Objects, sha1: Digest) returns (r: Outcome)
      ensures r == ApplySequence(asserts, updates, objects, sha1)
    {
      for k := 0 to |asserts|
        invariant forall j :: 0 <= j < k ==> Holds(asserts[j], objects, sha1)
      {
        if !Holds(asserts[k], objects, sha1) {
          return Failed(AssertionFailed);
        }
      }
      var now := objects;
      for k := 0 to |updates|
        invariant now == UpdatedAll(updates[..k], objects)
      {
        assert updates[..k + 1][..k] == updates[..k];
        now := Updated(updates[k], now);
      }
      assert updates[..|updates|] == updates;
      return Done(now);
    }
  }

  // ---------- the ALBA backend ----------

  function CondAssert(cond: Option<Condition>, sha1: Digest): seq<Assert>
  {
    if cond.Some? then [HasChecksum(cond.value.name, sha1(cond.value.expected))] else []
  }

  function AlbaWrite(objects: Objects, name: string, data: Content, overwrite: bool, cond: Option<Condition>,
                     sha1: Digest): Outcome
  {
    ApplySequence(CondAssert(cond, sha1) + if overwrite then [] else [DoesNotExist(name)],
                  [Upload(name, data)], objects, sha1)
  }

  function AlbaRemove(objects: Objects, name: string, mayNotExist: bool, cond: Option<Condition>,
                      sha1: Digest): Outcome
  {
    ApplySequence(CondAssert(cond, sha1) + if mayNotExist then [] else [Exists(name)],
                  [Delete(name)], objects, sha1)
  }

  /** write_ and write_tag_: build the sequence, then apply it. */
  method WriteBySequence(objects: Objects, name: string, data: Content, overwrite: bool, cond: Option<Condition>,
                         sha1: Digest) returns (r: Outcome)
    ensures r == AlbaWrite(objects, name, data, overwrite, cond, sha1)
  {
    var s := new Sequence();
    s.AddWrite(name, data);
    if cond.Some? {
      s.AddAssertCondition(cond.value, sha1);
    }
    if !overwrite {
      s.AddAssertExists(name, false);
    }
    hide ApplySequence;
    assert s.asserts == CondAssert(cond, sha1) + if overwrite then [] else [DoesNotExist(name)];
    assert s.updates == [Upload(name, data)];
    r := s.Apply(objects, sha1);
  }

  /** remove_. */
  method RemoveBySequence(objects: Objects, name: string, mayNotExist: bool, cond: Option<Condition>,
                          sha1: Digest) returns (r: Outcome)
    ensures r == AlbaRemove(objects, name, mayNotExist, cond, sha1)
  {
    var s := new Sequence();
    s.AddDelete(name);
    if cond.Some? {
      s.AddAssertCondition(cond.value, sha1);
    }
    if !mayNotExist {
      s.AddAssertExists(name, true);
    }
    hide ApplySequence;
    assert s.asserts == CondAssert(cond, sha1) + if mayNotExist then [] else [Exists(name)];
    assert s.updates == [Delete(name)];
    r := s.Apply(objects, sha1);
  }

  // ---------- what both are for ----------

  ghost predicate Met(cond: Option<Condition>, objects: Objects)
  {
    cond.Some? ==> cond.value.name in objects && objects[cond.value.name] == cond.value.expected
  }

  /** What the assertions of a condition and of an existence test come to. */
  lemma AssertsHold(cond: Option<Condition>, tests: seq<Assert>, objects: Objects, sha1: Digest)
    requires Injective(sha1)
    ensures (forall a <- CondAssert(cond, sha1) + tests :: Holds(a, objects, sha1)) <==>
            Met(cond, objects) && forall a <- tests :: Holds(a, objects, sha1)
  {
    if cond.Some? {
      var a := HasChecksum(cond.value.name, sha1(cond.value.expected));
      assert a in CondAssert(cond, sha1) + tests;
      assert Holds(a, objects, sha1) <==> Met(cond, objects);
    }
    assert forall a <- tests :: a in CondAssert(cond, sha1) + tests;
  }

  lemma OneUpdate(u: Update, objects: Objects)
    ensures UpdatedAll([u], objects) == Updated(u, objects)
  {
  }

  /** The sequence goes through exactly when the condition is met and the object may be written, and then
      nothing but that object changes. */
  lemma AlbaWriteAsMeant(objects: Objects, name: string, data: Content, overwrite: bool, cond: Option<Condition>,
                         sha1: Digest)
    requires Injective(sha1)
    ensures AlbaWrite(objects, name, data, overwrite, cond, sha1)
         == if Met(cond, objects) && (overwrite || name !in objects) then Done(objects[name := data])
            else Failed(AssertionFailed)
  {
    var tests := if overwrite then [] else [DoesNotExist(name)];
    AssertsHold(cond, tests, objects, sha1);
    OneUpdate(Upload(name, data), objects);
    assert !overwrite ==> DoesNotExist(name) in tests;
    hide UpdatedAll;
  }

  lemma AlbaRemoveAsMeant(objects: Objects, name: string, mayNotExist: bool, cond: Option<Condition>, sha1: Digest)
    requires Injective(sha1)
    ensures AlbaRemove(objects, name, mayNotExist, cond, sha1)
         == if Met(cond, objects) && (mayNotExist || name in objects) then Done(objects - {name})
            else Failed(AssertionFailed)
  {
    var tests := if mayNotExist then [] else [Exists(name)];
    AssertsHold(cond, tests, objects, sha1);
    OneUpdate(Delete(name), objects);
    assert !mayNotExist ==> Exists(name) in tests;
    hide UpdatedAll;
  }

  /** Two outcomes that a caller cannot tell apart but for the exception. */
  predicate Alike(a: Outcome, b: Outcome)
  {
    a == b || (a.Failed? && b.Failed?)
  }

  /** The two backends succeed together and leave the same objects, except that the local one has no place for an object
      whose name is not that of a file. */
  lemma WritesAgree(objects: Objects, name: string, data: Content, overwrite: bool, cond: Option<Condition>,
                    md5: Digest, sha1: Digest)
    requires Injective(md5) && Injective(sha1) && Covered(name) && OnFile(cond)
    ensures Alike(LocalWrite(objects, name, data, overwrite, cond, md5),
                  AlbaWrite(objects, name, data, overwrite, cond, sha1)) <==>
            FileName(name) || !(Met(cond, objects) && (overwrite || name !in objects))
  {
    AlbaWriteAsMeant(objects, name, data, overwrite, cond, sha1);
    hide AlbaWrite;
  }

  /** Which exception a local write that fails throws. */
  lemma LocalWriteErrors(objects: Objects, name: string, data: Content, overwrite: bool, cond: Option<Condition>,
                         md5: Digest)
    requires Injective(md5) && Covered(name) && OnFile(cond)
    ensures var r := LocalWrite(objects, name, data, overwrite, cond, md5);
            && (r == Failed(ObjectMissing) <==> cond.Some? && cond.value.name !in objects)
            && (r == Failed(StoreError) <==> Met(cond, objects) && (Nested(name) || (Directory(name) && overwrite)))
            && (r.Done? <==> Met(cond, objects) && FileName(name) && (overwrite || name !in objects))
            && (r.Done? ==> r.objects == objects[name := data])
            && r != Failed(NamespaceMissing)
  {
    KindsOfNames(name);
  }

  /** Which exception a local removal that fails throws. */
  lemma LocalRemoveErrors(objects: Objects, name: string, mayNotExist: bool, cond: Option<Condition>, md5: Digest)
    requires Injective(md5) && Covered(name) && OnFile(cond) && !RemovesNamespace(objects, name, cond)
    ensures var r := LocalRemove(objects, name, mayNotExist, cond, md5);
            && (r == Failed(AssertionFailed) <==>
                cond.Some? && cond.value.name in objects && objects[cond.value.name] != cond.value.expected)
            && (r == Failed(StoreError) <==> Met(cond, objects) && Directory(name))
            && (r.Done? ==> Met(cond, objects) && !Directory(name))
            && (r.Done? ==> r.objects == if FileName(name) then objects - {name} else objects)
            && (FileName(name) && Met(cond, objects) ==> (r.Done? <==> mayNotExist || name in objects))
            && r != Failed(NamespaceMissing)
  {
    KindsOfNames(name);
    if name !in objects {
      assert objects - {name} == objects;
    }
  }

  /** Removals agree as well, except that the local one fails on a directory and cannot find an object whose name has
      a slash. */
  lemma RemovalsAgree(objects: Objects, name: string, mayNotExist: bool, cond: Option<Condition>,
                      md5: Digest, sha1: Digest)
    requires Injective(md5) && Injective(sha1) && Covered(name) && OnFile(cond)
    requires !RemovesNamespace(objects, name, cond)
    ensures Alike(LocalRemove(objects, name, mayNotExist, cond, md5),
                  AlbaRemove(objects, name, mayNotExist, cond, sha1)) <==>
            || FileName(name) || !Met(cond, objects)
            || (name !in objects && (Nested(name) || !mayNotExist))
  {
    AlbaRemoveAsMeant(objects, name, mayNotExist, cond, sha1);
    hide AlbaRemove;
    KindsOfNames(name);
    if name !in objects {
      assert objects - {name} == objects;
    } else {
      assert name !in objects - {name};
    }
  }

  /** Names that ALBA takes and the local backend does not. */
  lemma NamesDisagree(data: Content, md5: Digest, sha1: Digest)
    requires Injective(md5) && Injective(sha1)
    ensures Covered(".") && Covered("a/b")
    ensures LocalWrite(map[], ".", data, false, None, md5) == Failed(AssertionFailed)
    ensures AlbaWrite(map[], ".", data, false, None, sha1) == Done(map["." := data])
    ensures LocalRemove(map[], ".", true, None, md5) == Failed(StoreError)
    ensures AlbaRemove(map[], ".", true, None, sha1) == Done(map[])
    ensures LocalWrite(map[], "a/b", data, true, None, md5) == Failed(StoreError)
    ensures AlbaWrite(map[], "a/b", data, true, None, sha1) == Done(map["a/b" := data])
  {
    var name := "a/b";
    assert name[1] == '/' && name[..1] == "a" && FileName(name[..1]) && Nested(name);
    KindsOfNames(name);
    AlbaWriteAsMeant(map[], ".", data, false, None, sha1);
    AlbaRemoveAsMeant(map[], ".", true, None, sha1);
    AlbaWriteAsMeant(map[], name, data, true, None, sha1);
  }

  /** What write_tag does with the tag of `previous`, or without one. */
  function TagCondition(name: string, previous: Option<Content>): Option<Condition>
  {
    if previous.Some? then Some(Condition(name, previous.value)) else None
  }

  function Current(objects: Objects, name: string): Option<Content>
  {
    if name in objects then Some(objects[name]) else None
  }

  /** write_tag is a compare-and-swap on its object when it presents a tag, and a creation when it does not. */
  lemma WriteTagIsCompareAndSwap(objects: Objects, name: string, data: Content, previous: Option<Content>,
                                 md5: Digest, sha1: Digest)
    requires Injective(md5) && Injective(sha1) && FileName(name)
    ensures AlbaWrite(objects, name, data, previous.Some?, TagCondition(name, previous), sha1)
         == if Current(objects, name) == previous then Done(objects[name := data]) else Failed(AssertionFailed)
    ensures var local := LocalWrite(objects, name, data, previous.Some?, TagCondition(name, previous), md5);
            if Current(objects, name) == previous then local == Done(objects[name := data])
            else local.Failed? && local.error != StoreError
  {
    AlbaWriteAsMeant(objects, name, data, previous.Some?, TagCondition(name, previous), sha1);
  }
}
