/** The advisory lock object of a namespace, which any number of clients read, replace and erase. */
module LockStore {
  import opened Wrappers
  import opened Values
  import opened ObjectStore

  const LOCK: string := "global_advisory_namespace_lock"

  lemma LockNameIsFileName()
    ensures FileName(LOCK)
  {
  }

  // ---------- the two backends ----------

  datatype Kind = Local | Alba

  /** LockStore::write: without a tag the lock must not exist yet. */
  function WriteLock(kind: Kind, tag: Digest, objects: Objects, data: Content, previous: Option<Content>): Outcome
  {
    LockNameIsFileName();
    match kind
    case Local => LocalWrite(objects, LOCK, data, previous.Some?, TagCondition(LOCK, previous), tag)
    case Alba => AlbaWrite(objects, LOCK, data, previous.Some?, TagCondition(LOCK, previous), tag)
  }

  /** LockStore::erase. */
  function EraseLock(kind: Kind, tag: Digest, objects: Objects): Outcome
  {
    LockNameIsFileName();
    match kind
    case Local => LocalRemove(objects, LOCK, true, None, tag)
    case Alba => AlbaRemove(objects, LOCK, true, None, tag)
  }

  lemma WriteLockIs(kind: Kind, tag: Digest, objects: Objects, data: Content, previous: Option<Content>)
    requires Injective(tag)
    ensures var w := WriteLock(kind, tag, objects, data, previous);
            if Current(objects, LOCK) == previous then w == Done(objects[LOCK := data]) else w.Failed?
  {
    LockNameIsFileName();
    WriteTagIsCompareAndSwap(objects, LOCK, data, previous, tag, tag);
  }

  lemma EraseLockIs(kind: Kind, tag: Digest, objects: Objects)
    requires Injective(tag)
    ensures EraseLock(kind, tag, objects) == Done(objects - {LOCK})
  {
    LockNameIsFileName();
    AlbaRemoveAsMeant(objects, LOCK, true, None, tag);
    if LOCK !in objects {
      assert objects - {LOCK} == objects;
    }
  }

  // ---------- clients ----------

  /** A version of the lock: its content, the version that it replaced and the one whose tag its writer presented,
      both as places in the history. */
  datatype Version = Version(data: Content, replaced: Option<nat>, presented: Option<nat>)

  /** The objects, and what happened so far: all versions that were ever written, the places in the history where the
      lock was erased, the version that is stored, and for each client the version whose tag it holds. */
  datatype State = State(objects: Objects, history: seq<Version>, erased: set<nat>, stored: Option<nat>,
                         held: map<int, nat>)

  datatype Event =
    | Read(client: int)
    | Create(client: int, data: Content)
    | Replace(client: int, data: Content)
    | Erase
    | Elsewhere(name: string, data: Content)

  function Written(kind: Kind, tag: Digest, s: State, client: int, data: Content, presented: Option<nat>): State
    requires presented.Some? ==> presented.value < |s.history|
  {
    var previous := if presented.Some? then Some(s.history[presented.value].data) else None;
    var w := WriteLock(kind, tag, s.objects, data, previous);
    if w.Failed? then s
    else
      State(w.objects, s.history + [Version(data, s.stored, presented)], s.erased, Some(|s.history|),
            s.held[client := |s.history|])
  }

  function Next(kind: Kind, tag: Digest, s: State, e: Event): State
    requires HeldKnown(s)
  {
    match e
    case Read(c) => if s.stored.Some? then s.(held := s.held[c := s.stored.value]) else s
    case Create(c, data) => Written(kind, tag, s, c, data, None)
    case Replace(c, data) => if c in s.held then Written(kind, tag, s, c, data, Some(s.held[c])) else s
    case Erase =>
      var r := EraseLock(kind, tag, s.objects);
      if r.Failed? then s else s.(objects := r.objects, erased := s.erased + {|s.history|}, stored := None)
    case Elsewhere(name, data) => if name == LOCK then s else s.(objects := s.objects[name := data])
  }

  ghost predicate HeldKnown(s: State)
  {
    forall c :: c in s.held ==> s.held[c] < |s.history|
  }

  // ---------- the chain ----------

  /** Version `k` replaced the one just before it, unless the lock was erased in between or never existed; and the
      one that its writer presented has the same content. */
  ghost predicate Linked(s: State, k: nat)
    requires k < |s.history|
  {
    var v := s.history[k];
    && v.replaced == (if k == 0 || k in s.erased then None else Some(k - 1))
    && (v.presented.Some? <==> v.replaced.Some?)
    && (v.presented.Some? ==> v.presented.value < k && s.history[v.presented.value].data == s.history[k - 1].data)
  }

  ghost predicate Chained(s: State)
  {
    && HeldKnown(s)
    && (forall k :: 0 <= k < |s.history| ==> Linked(s, k))
    && s.stored == (if s.history == [] || |s.history| in s.erased then None else Some(|s.history| - 1))
    && Current(s.objects, LOCK) == (if s.stored.Some? then Some(s.history[|s.history| - 1].data) else None)
    && (forall k :: k in s.erased ==> k <= |s.history|)
  }

  lemma WrittenChained(kind: Kind, tag: Digest, s: State, client: int, data: Content, presented: Option<nat>)
    requires Injective(tag) && Chained(s) && (presented.Some? ==> presented.value < |s.history|)
    ensures Chained(Written(kind, tag, s, client, data, presented))
  {
    var previous := if presented.Some? then Some(s.history[presented.value].data) else None;
    WriteLockIs(kind, tag, s.objects, data, previous);
    var t := Written(kind, tag, s, client, data, presented);
    hide WriteLock;
    forall k | 0 <= k < |t.history|
      ensures Linked(t, k)
    {
      if k < |s.history| {
        assert Linked(s, k);
      }
    }
  }

  lemma NextChained(kind: Kind, tag: Digest, s: State, e: Event)
    requires Injective(tag) && Chained(s)
    ensures Chained(Next(kind, tag, s, e))
  {
    hide WriteLock, EraseLock;
    match e
    case Create(c, data) => WrittenChained(kind, tag, s, c, data, None);
    case Replace(c, data) =>
      if c in s.held {
        WrittenChained(kind, tag, s, c, data, Some(s.held[c]));
      }
    case Erase =>
      EraseLockIs(kind, tag, s.objects);
      var t := Next(kind, tag, s, e);
      forall k | 0 <= k < |t.history|
        ensures Linked(t, k)
      {
        assert Linked(s, k);
      }
    case _ =>
      var t := Next(kind, tag, s, e);
      forall k | 0 <= k < |t.history|
        ensures Linked(t, k)
      {
        assert Linked(s, k);
      }
  }

  /** Any interleaving of the clients, starting without a lock. */
  ghost function Run(kind: Kind, tag: Digest, first: Objects, events: seq<Event>): (s: State)
    requires Injective(tag) && LOCK !in first
    ensures Chained(s)
  {
    if events == [] then State(first, [], {}, None, map[])
    else
      var before := Run(kind, tag, first, events[..|events| - 1]);
      NextChained(kind, tag, before, events[|events| - 1]);
      Next(kind, tag, before, events[|events| - 1])
  }

  /** So between erasures the versions form one chain, and no version has two successors. */
  lemma NoTwoSuccessors(kind: Kind, tag: Digest, first: Objects, events: seq<Event>, i: nat, j: nat)
    requires Injective(tag) && LOCK !in first && i < j < |Run(kind, tag, first, events).history|
    ensures var s := Run(kind, tag, first, events);
            && (j !in s.erased ==> s.history[j].replaced == Some(j - 1))
            && (s.history[i].replaced.Some? ==> s.history[i].replaced != s.history[j].replaced)
  {
    var s := Run(kind, tag, first, events);
    assert Linked(s, i) && Linked(s, j);
  }

  ghost predicate NothingWrittenTwice(s: State)
  {
    forall i, j :: 0 <= i < j < |s.history| ==> s.history[i].data != s.history[j].data
  }

  /** If no content is ever written twice then each writer replaced the very version whose tag it presented. */
  lemma PresentedIsReplaced(kind: Kind, tag: Digest, first: Objects, events: seq<Event>, k: nat)
    requires Injective(tag) && LOCK !in first && k < |Run(kind, tag, first, events).history|
    requires NothingWrittenTwice(Run(kind, tag, first, events))
    ensures var v := Run(kind, tag, first, events).history[k]; v.presented == v.replaced
  {
    hide Run;
    var s := Run(kind, tag, first, events);
    assert Linked(s, k);
  }

  /** A client that holds the tag of version `i` replaces the stored version exactly when that one has the content of
      version `i`, be it another one or not. */
  lemma ReplacesSameContent(kind: Kind, tag: Digest, s: State, client: int, data: Content)
    requires Injective(tag) && Chained(s) && client in s.held
    ensures var t := Next(kind, tag, s, Replace(client, data));
            var i := s.held[client];
            if s.stored.Some? && s.history[s.stored.value].data == s.history[i].data
            then t.history == s.history + [Version(data, s.stored, Some(i))] else t == s
  {
    WriteLockIs(kind, tag, s.objects, data, Some(s.history[s.held[client]].data));
    hide WriteLock;
  }

  /** A lock is created exactly if there is none. */
  lemma CreatesIfNone(kind: Kind, tag: Digest, s: State, client: int, data: Content)
    requires Injective(tag) && Chained(s)
    ensures var t := Next(kind, tag, s, Create(client, data));
            if s.stored.None?
            then t.history == s.history + [Version(data, None, None)] && Current(t.objects, LOCK) == Some(data)
            else t == s
  {
    WriteLockIs(kind, tag, s.objects, data, None);
    hide WriteLock;
  }

  /** A read gives the tag of the version that is stored, with which the client can replace that one. */
  lemma ReadThenReplace(kind: Kind, tag: Digest, s: State, client: int, data: Content)
    requires Injective(tag) && Chained(s) && s.stored.Some?
    ensures var r := Next(kind, tag, s, Read(client));
            && r.objects == s.objects && r.history == s.history && HeldKnown(r)
            && var t := Next(kind, tag, r, Replace(client, data));
               t.history == s.history + [Version(data, s.stored, s.stored)] && Current(t.objects, LOCK) == Some(data)
  {
    var r := Next(kind, tag, s, Read(client));
    NextChained(kind, tag, s, Read(client));
    ReplacesSameContent(kind, tag, r, client, data);
    WriteLockIs(kind, tag, r.objects, data, Some(r.history[r.held[client]].data));
    hide WriteLock;
  }

  /** So does a write: its client can go on replacing the lock, until another one does. */
  lemma WriterGoesOn(kind: Kind, tag: Digest, s: State, client: int, x: Content, data: Content, creates: bool)
    requires Injective(tag) && Chained(s)
    requires var e := if creates then Create(client, x) else Replace(client, x);
             Next(kind, tag, s, e).history != s.history
    ensures var e := if creates then Create(client, x) else Replace(client, x);
            var r := Next(kind, tag, s, e);
            && Chained(r) && r.stored == Some(|s.history|)
            && Next(kind, tag, r, Replace(client, data)).history
               == r.history + [Version(data, Some(|s.history|), Some(|s.history|))]
  {
    var e := if creates then Create(client, x) else Replace(client, x);
    NextChained(kind, tag, s, e);
    hide WriteLock;
    ReplacesSameContent(kind, tag, Next(kind, tag, s, e), client, data);
  }

  /** An erasure leaves no lock, takes no tag from anyone and touches no other object; other objects do not touch the
      lock. */
  lemma ErasesOnlyTheLock(kind: Kind, tag: Digest, s: State, name: string, data: Content)
    requires Injective(tag) && Chained(s) && name != LOCK
    ensures var t := Next(kind, tag, s, Erase);
            t.stored == None && Current(t.objects, LOCK) == None && t.held == s.held && t.history == s.history &&
            Current(t.objects, name) == Current(s.objects, name)
    ensures var t := Next(kind, tag, s, Elsewhere(name, data));
            t == s.(objects := t.objects) && Current(t.objects, name) == Some(data) &&
            Current(t.objects, LOCK) == Current(s.objects, LOCK)
  {
    EraseLockIs(kind, tag, s.objects);
    hide EraseLock;
  }

  lemma RunNext(kind: Kind, tag: Digest, first: Objects, events: seq<Event>, e: Event)
    requires Injective(tag) && LOCK !in first
    ensures Run(kind, tag, first, events + [e]) == Next(kind, tag, Run(kind, tag, first, events), e)
  {
  }

  lemma CreatedAndErased(kind: Kind, tag: Digest, x: Content)
    requires Injective(tag)
    ensures Run(kind, tag, map[], [Create(1, x), Erase])
         == State(map[], [Version(x, None, None)], {1}, None, map[1 := 0])
  {
    RunNext(kind, tag, map[], [], Create(1, x));
    RunNext(kind, tag, map[], [Create(1, x)], Erase);
    assert [] + [Create(1, x)] == [Create(1, x)] && [Create(1, x)] + [Erase] == [Create(1, x), Erase];
    WriteLockIs(kind, tag, map[], x, None);
    EraseLockIs(kind, tag, map[LOCK := x]);
    hide WriteLock, EraseLock;
    assert map[LOCK := x] - {LOCK} == map[];
  }

  /** So a lock that is taken, erased and taken again with the same content is replaced with the tag of the erased
      one. */
  lemma ErasedTagAccepted(kind: Kind, tag: Digest, x: Content, y: Content)
    requires Injective(tag)
    ensures Run(kind, tag, map[], [Create(1, x), Erase, Create(2, x), Replace(1, y)]).history
         == [Version(x, None, None), Version(x, None, None), Version(y, Some(1), Some(0))]
  {
    var two := [Create(1, x), Erase];
    CreatedAndErased(kind, tag, x);
    RunNext(kind, tag, map[], two, Create(2, x));
    RunNext(kind, tag, map[], two + [Create(2, x)], Replace(1, y));
    assert two + [Create(2, x)] + [Replace(1, y)] == [Create(1, x), Erase, Create(2, x), Replace(1, y)];
    WriteLockIs(kind, tag, map[], x, None);
    hide Run, WriteLock;
    ReplacesSameContent(kind, tag, Run(kind, tag, map[], two + [Create(2, x)]), 1, y);
  }
}
