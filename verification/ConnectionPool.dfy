/** The pool of idle connections to one backend, as the locked sections of its users change it. */
module ConnectionPool {
  import opened Wrappers
  import opened Collections

  // ---------- the pool as a state machine ----------

  datatype Counters = Counters(getsNew: nat, getsFromPool: nat, putsDelete: nat, putsToPool: nat)

  /** What became of the connections: the ones ever made, the ones that users hold, the ones that were taken out of
      use but not yet deleted, and the deleted ones; whether a connection was healthy when it last came back and which
      put that was; how many pooled ones were handed out and how many thrown away; and how many were made that are
      not yet counted. */
  datatype Books = Books(created: set<int>, lent: set<int>, doomed: set<int>, destroyed: set<int>,
                         judged: map<int, bool>, stamps: map<int, nat>, pops: nat, dropped: nat, uncounted: nat)

  /** `connections` has the most recently returned one in front. */
  datatype State = State(connections: seq<int>, capacity: nat, counters: Counters, until: int, books: Books)

  /** The sections that are atomic with respect to each other. */
  datatype Step =
    | Pop
    | Make(id: int)
    | CountNew
    | Release(id: int, healthy: bool)
    | Delete(id: int)
    | SetCapacity(cap: nat)
    | Error(now: int, secs: nat)

  function Reversed(s: seq<int>): (r: seq<int>)
    ensures |r| == |s| && multiset(r) == multiset(s)
    ensures forall i :: 0 <= i < |s| ==> r[i] == s[|s| - 1 - i]
  {
    if s == [] then [] else assert s == s[..|s| - 1] + [s[|s| - 1]]; [s[|s| - 1]] + Reversed(s[..|s| - 1])
  }

  ghost function Popped(s: State): State
  {
    var asked := s.(counters := s.counters.(getsFromPool := s.counters.getsFromPool + 1));
    if s.connections == [] then asked
    else
      asked.(connections := s.connections[1..],
             books := s.books.(lent := s.books.lent + {s.connections[0]}, pops := s.books.pops + 1))
  }

  ghost function Made(s: State, id: int): State
  {
    var b := s.books;
    if id in b.created then s
    else s.(books := b.(created := b.created + {id}, lent := b.lent + {id}, uncounted := b.uncounted + 1))
  }

  ghost function Counted(s: State): State
  {
    if s.books.uncounted == 0 then s
    else
      s.(counters := s.counters.(getsNew := s.counters.getsNew + 1),
         books := s.books.(uncounted := s.books.uncounted - 1))
  }

  ghost function Released(s: State, id: int, healthy: bool): State
  {
    var b, k := s.books, s.counters;
    if id !in b.lent then s
    else if healthy && |s.connections| < s.capacity then
      s.(connections := [id] + s.connections, counters := k.(putsToPool := k.putsToPool + 1),
         books := b.(lent := b.lent - {id}, judged := b.judged[id := true], stamps := b.stamps[id := k.putsToPool]))
    else
      s.(counters := k.(putsDelete := k.putsDelete + 1),
         books := b.(lent := b.lent - {id}, doomed := b.doomed + {id}, judged := b.judged[id := healthy]))
  }

  ghost function Deleted(s: State, id: int): State
  {
    var b := s.books;
    if id !in b.doomed then s else s.(books := b.(doomed := b.doomed - {id}, destroyed := b.destroyed + {id}))
  }

  ghost function Resized(s: State, cap: nat): State
  {
    var b, c := s.books, s.connections;
    if |c| <= cap then s.(capacity := cap)
    else
      s.(capacity := cap, connections := Reversed(c[..cap]),
         books := b.(doomed := b.doomed + Elements(c[cap..]), dropped := b.dropped + |c[cap..]|))
  }

  ghost function Failed(s: State, now: int, secs: nat): State
  {
    var b, c := s.books, s.connections;
    s.(until := now + secs, connections := [],
       books := b.(destroyed := b.destroyed + Elements(c), dropped := b.dropped + |c|))
  }

  ghost function Next(s: State, step: Step): State
  {
    match step
    case Pop => Popped(s)
    case Make(id) => Made(s, id)
    case CountNew => Counted(s)
    case Release(id, healthy) => Released(s, id, healthy)
    case Delete(id) => Deleted(s, id)
    case SetCapacity(cap) => Resized(s, cap)
    case Error(now, secs) => Failed(s, now, secs)
  }

  // ---------- what every step keeps ----------

  /** Each connection ever made is in exactly one place. */
  ghost predicate Partitioned(s: State)
  {
    var b := s.books;
    multiset(s.connections) + multiset(b.lent) + multiset(b.doomed) + multiset(b.destroyed) == multiset(b.created)
  }

  /** The pooled ones fit, came back healthy, and are stamped with the put that brought them. */
  ghost predicate Sound(s: State)
  {
    var b := s.books;
    && |s.connections| <= s.capacity
    && forall i :: 0 <= i < |s.connections| ==>
         var c := s.connections[i];
         && c in b.judged && b.judged[c]
         && c in b.stamps && b.stamps[c] < s.counters.putsToPool
  }

  /** Connections that went into the pool were handed out again, are still there, or were thrown away; the ones in use
      are the ones handed out, new or from the pool, that did not come back. */
  ghost predicate Balanced(s: State)
  {
    var b, k := s.books, s.counters;
    && k.putsToPool == b.pops + |s.connections| + b.dropped
    && |b.lent| + k.putsToPool + k.putsDelete == k.getsNew + b.uncounted + b.pops
    && |b.created| == k.getsNew + b.uncounted
    && b.pops <= k.getsFromPool
  }

  lemma MovedFromFront(s: seq<int>)
    requires s != []
    ensures multiset(s) == multiset{s[0]} + multiset(s[1..])
  {
    assert s == [s[0]] + s[1..];
  }

  lemma SplitAt(s: seq<int>, n: nat)
    requires n <= |s|
    ensures multiset(s) == multiset(s[..n]) + multiset(s[n..])
  {
    assert s == s[..n] + s[n..];
  }

  /** When nothing is in two places the connections of a list are as many as its elements. */
  lemma ElementsOnce(s: seq<int>, all: set<int>)
    requires multiset(s) <= multiset(all)
    ensures multiset(Elements(s)) == multiset(s)
  {
  }

  /** What the partition says about one connection. */
  lemma InOnePlace(s: State, id: int)
    requires Partitioned(s)
    ensures var b := s.books;
            && (id in b.created <==> id in s.connections || id in b.lent || id in b.doomed || id in b.destroyed)
            && (id in b.lent ==> id !in s.connections && id !in b.doomed && id !in b.destroyed)
            && (id in b.doomed ==> id !in s.connections && id !in b.destroyed)
            && (id in b.destroyed ==> id !in s.connections)
  {
    var b := s.books;
    var places := multiset(s.connections) + multiset(b.lent) + multiset(b.doomed) + multiset(b.destroyed);
    assert places[id] == multiset(b.created)[id] <= 1;
    assert id in s.connections <==> multiset(s.connections)[id] > 0;
  }

  lemma Joined(s: set<int>, id: int)
    requires id !in s
    ensures multiset(s + {id}) == multiset(s) + multiset{id}
  {
  }

  lemma Left(s: set<int>, id: int)
    requires id in s
    ensures multiset(s) == multiset(s - {id}) + multiset{id}
  {
  }

  lemma PoppedPartitioned(s: State)
    requires Partitioned(s)
    ensures Partitioned(Popped(s))
  {
    if s.connections != [] {
      MovedFromFront(s.connections);
      InOnePlace(s, s.connections[0]);
      Joined(s.books.lent, s.connections[0]);
    }
  }

  lemma ReleasedPartitioned(s: State, id: int, healthy: bool)
    requires Partitioned(s)
    ensures Partitioned(Released(s, id, healthy))
  {
    InOnePlace(s, id);
    if id in s.books.lent {
      Left(s.books.lent, id);
      Joined(s.books.doomed, id);
      assert multiset([id] + s.connections) == multiset{id} + multiset(s.connections);
    }
  }

  lemma MadePartitioned(s: State, id: int)
    requires Partitioned(s)
    ensures Partitioned(Made(s, id))
  {
    InOnePlace(s, id);
    if id !in s.books.created {
      Joined(s.books.created, id);
      Joined(s.books.lent, id);
    }
  }

  lemma DeletedPartitioned(s: State, id: int)
    requires Partitioned(s)
    ensures Partitioned(Deleted(s, id))
  {
    InOnePlace(s, id);
    if id in s.books.doomed {
      Left(s.books.doomed, id);
      Joined(s.books.destroyed, id);
    }
  }

  lemma ResizedPartitioned(s: State, cap: nat)
    requires Partitioned(s)
    ensures Partitioned(Resized(s, cap))
  {
    if |s.connections| > cap {
      SplitAt(s.connections, cap);
      ElementsOnce(s.connections[cap..], s.books.created);
    }
  }

  lemma NextPartitioned(s: State, step: Step)
    requires Partitioned(s)
    ensures Partitioned(Next(s, step))
  {
    match step
    case Pop => PoppedPartitioned(s);
    case Make(id) => MadePartitioned(s, id);
    case CountNew =>
    case Release(id, healthy) => ReleasedPartitioned(s, id, healthy);
    case Delete(id) => DeletedPartitioned(s, id);
    case SetCapacity(cap) => ResizedPartitioned(s, cap);
    case Error(_, _) => ElementsOnce(s.connections, s.books.created);
  }

  lemma NextSound(s: State, step: Step)
    requires Partitioned(s) && Sound(s)
    ensures Sound(Next(s, step))
  {
    if step.Release? {
      InOnePlace(s, step.id);
    }
  }

  lemma NextBalanced(s: State, step: Step)
    requires Partitioned(s) && Balanced(s)
    ensures Balanced(Next(s, step))
  {
    var b, c := s.books, s.connections;
    match step
    case Pop =>
      if c != [] {
        InOnePlace(s, c[0]);
      }
    case Make(id) => InOnePlace(s, id);
    case _ =>
  }

  // ---------- every interleaving ----------

  const LONG_AGO: int := -0x8000_0000_0000_0000

  ghost function Empty(capacity: nat): State
  {
    State([], capacity, Counters(0, 0, 0, 0), LONG_AGO, Books({}, {}, {}, {}, map[], map[], 0, 0, 0))
  }

  ghost function Run(capacity: nat, steps: seq<Step>): State
  {
    if steps == [] then Empty(capacity) else Next(Run(capacity, steps[..|steps| - 1]), steps[|steps| - 1])
  }

  /** Whatever the users do and however their sections interleave, every connection is in exactly one place, the pool
      holds no more than its capacity and only healthy connections, and the counters balance. */
  lemma {:induction false} EveryRunKeepsBooks(capacity: nat, steps: seq<Step>)
    ensures Partitioned(Run(capacity, steps)) && Sound(Run(capacity, steps)) && Balanced(Run(capacity, steps))
  {
    hide Partitioned, Sound, Balanced, Next;
    if steps == [] {
      StartKeepsBooks(capacity);
    } else {
      EveryRunKeepsBooks(capacity, steps[..|steps| - 1]);
      var s, step := Run(capacity, steps[..|steps| - 1]), steps[|steps| - 1];
      NextPartitioned(s, step);
      NextSound(s, step);
      NextBalanced(s, step);
    }
  }

  lemma StartKeepsBooks(capacity: nat)
    ensures Partitioned(Empty(capacity)) && Sound(Empty(capacity)) && Balanced(Empty(capacity))
  {
  }

  // ---------- what each step does ----------

  /** A connection that comes back healthy while there is room is the next one to be handed out. */
  lemma HealthyIsReused(s: State, id: int)
    requires id in s.books.lent && |s.connections| < s.capacity
    ensures var t := Next(s, Release(id, true));
            && t.connections == [id] + s.connections && id !in t.books.lent && t.books.doomed == s.books.doomed
            && t.counters == s.counters.(putsToPool := s.counters.putsToPool + 1)
            && Next(t, Pop).connections == s.connections && id in Next(t, Pop).books.lent
  {
  }

  /** Any other one that comes back is deleted and never seen in the pool. */
  lemma OthersAreDeleted(s: State, id: int, healthy: bool)
    requires id in s.books.lent && (!healthy || s.capacity <= |s.connections|)
    ensures var t := Next(s, Release(id, healthy));
            && t.connections == s.connections && id !in t.books.lent && id in t.books.doomed
            && t.counters == s.counters.(putsDelete := s.counters.putsDelete + 1)
            && id in Next(t, Delete(id)).books.destroyed && id !in Next(t, Delete(id)).books.doomed
            && Next(t, Delete(id)).connections == s.connections
  {
  }

  /** Every request to the pool counts, and gets a connection exactly if there is one: in the order of return the one
      that came back last. */
  lemma HandsOutNewest(s: State)
    requires Sound(s) && Lifo(s)
    ensures var t := Next(s, Pop);
            && t.counters == s.counters.(getsFromPool := s.counters.getsFromPool + 1)
            && (s.connections == [] ==> t.books.lent == s.books.lent && t.connections == [])
            && (s.connections != [] ==>
                exists id <- s.connections ::
                  && t.books.lent == s.books.lent + {id} && s.connections == [id] + t.connections
                  && forall other <- t.connections :: s.books.stamps[other] < s.books.stamps[id])
  {
    if s.connections != [] {
      var id := s.connections[0];
      assert id in s.connections && s.connections == [id] + s.connections[1..];
      forall other <- s.connections[1..]
        ensures s.books.stamps[other] < s.books.stamps[id]
      {
        var j :| 0 <= j < |s.connections[1..]| && s.connections[1..][j] == other;
        assert s.connections[j + 1] == other;
      }
    }
  }

  /** A new connection is lent at once and counted in a step of its own; neither touches the pool. */
  lemma NewIsLent(s: State, id: int)
    requires id !in s.books.created
    ensures var t := Next(s, Make(id));
            && id in t.books.created && id in t.books.lent
            && t.connections == s.connections && t.counters == s.counters
            && Next(t, CountNew).counters == s.counters.(getsNew := s.counters.getsNew + 1)
            && Next(t, CountNew).connections == s.connections
  {
  }

  /** A new capacity is in force at once; as many connections stay as fit, and the others are doomed. */
  lemma CapacityInForce(s: State, cap: nat)
    ensures var t := Next(s, SetCapacity(cap));
            && t.capacity == cap && t.counters == s.counters && t.books.lent == s.books.lent
            && |t.connections| == (if |s.connections| <= cap then |s.connections| else cap)
            && (forall id <- t.connections :: id in s.connections)
            && (forall id <- s.connections :: id in t.connections || id in t.books.doomed)
  {
    var c := s.connections;
    if |c| > cap {
      SameElements(Reversed(c[..cap]), c[..cap]);
      forall id <- c
        ensures id in c[..cap] || id in c[cap..]
      {
        assert c == c[..cap] + c[cap..];
      }
    }
  }

  /** An error empties the pool within the section: all its connections are destroyed, and the next request to it gets
      none. */
  lemma ErrorEmptiesPool(capacity: nat, steps: seq<Step>, now: int, secs: nat)
    ensures var s := Run(capacity, steps);
            var t := Run(capacity, steps + [Error(now, secs)]);
            && t.connections == [] && (forall id <- s.connections :: id in t.books.destroyed)
            && t.until == now + secs && t.counters == s.counters && t.books.lent == s.books.lent
            && Next(t, Pop).books.lent == s.books.lent
  {
    RunMore(capacity, steps, Error(now, secs));
    hide Run;
  }

  // ---------- which ones a smaller capacity keeps ----------

  /** The pool is in the order of return, latest first. */
  ghost predicate Lifo(s: State)
    requires Sound(s)
  {
    var c, t := s.connections, s.books.stamps;
    forall i, j :: 0 <= i < j < |c| ==> t[c[i]] > t[c[j]]
  }

  /** Everything that is kept came back later than everything that goes. */
  ghost predicate KeepsNewest(s: State, cap: nat)
    requires Sound(s)
  {
    var c, t := s.connections, s.books.stamps;
    forall x, y :: x in c && y in c && x in Resized(s, cap).connections && y !in Resized(s, cap).connections ==>
      t[x] > t[y]
  }

  lemma SameElements(r: seq<int>, s: seq<int>)
    requires multiset(r) == multiset(s)
    ensures forall x :: x in r <==> x in s
  {
    forall x
      ensures x in r <==> x in s
    {
      assert x in multiset(r) <==> x in multiset(s);
    }
  }

  lemma NotInFront(s: seq<int>, n: nat, j: nat)
    requires j < |s| && n <= |s| && s[j] !in s[..n]
    ensures n <= j
  {
  }

  lemma ShrinkKeepsNewest(s: State, cap: nat)
    requires Sound(s) && Lifo(s)
    ensures KeepsNewest(s, cap)
  {
    var c, d := s.connections, Resized(s, cap).connections;
    forall x, y | x in c && y in c && x in d && y !in d
      ensures s.books.stamps[x] > s.books.stamps[y]
    {
      SameElements(Reversed(c[..cap]), c[..cap]);
      var i :| 0 <= i < cap && c[i] == x;
      var j :| 0 <= j < |c| && c[j] == y;
      NotInFront(c, cap, j);
    }
  }

  lemma LifoResized(s: State, cap: nat)
    requires Sound(s) && Lifo(s) && Sound(Resized(s, cap))
    ensures Lifo(Resized(s, cap)) <==> !(2 <= cap < |s.connections|)
  {
    var c, d := s.connections, Resized(s, cap).connections;
    if 2 <= cap < |c| {
      assert d[0] == c[cap - 1] && d[1] == c[cap - 2];
    }
  }

  lemma LifoReleased(s: State, id: int, healthy: bool)
    requires Partitioned(s) && Sound(s) && Lifo(s) && Sound(Released(s, id, healthy))
    ensures Lifo(Released(s, id, healthy))
  {
    InOnePlace(s, id);
  }

  /** A smaller capacity keeps the newest connections, but the other way round: the order survives a step exactly when
      the step does not keep two or more of a larger number. */
  lemma LifoAfter(s: State, step: Step)
    requires Partitioned(s) && Sound(s) && Lifo(s)
    ensures Sound(Next(s, step))
    ensures Lifo(Next(s, step)) <==> !(step.SetCapacity? && 2 <= step.cap < |s.connections|)
  {
    NextSound(s, step);
    match step
    case SetCapacity(cap) =>
      hide Resized, Lifo;
      LifoResized(s, cap);
    case Release(id, healthy) =>
      hide Released, Lifo;
      LifoReleased(s, id, healthy);
    case _ =>
  }

  lemma {:induction false} LifoRun(capacity: nat, steps: seq<Step>)
    requires forall k, cap :: 0 <= k < |steps| && steps[k] == SetCapacity(cap) ==>
               cap <= 1 || |Run(capacity, steps[..k]).connections| <= cap
    ensures Sound(Run(capacity, steps)) && Lifo(Run(capacity, steps))
  {
    EveryRunKeepsBooks(capacity, steps);
    if steps != [] {
      var n := |steps| - 1;
      var before := steps[..n];
      EveryRunKeepsBooks(capacity, before);
      forall k, cap | 0 <= k < |before| && before[k] == SetCapacity(cap)
        ensures cap <= 1 || |Run(capacity, before[..k]).connections| <= cap
      {
        assert before[..k] == steps[..k];
      }
      hide Sound, Next, Lifo;
      LifoRun(capacity, before);
      LifoAfter(Run(capacity, before), steps[n]);
    }
  }

  /** Two shrinks in a row: the second one throws away the newest connection. */
  lemma ShrunkTwice(s: State)
    requires Partitioned(s) && Sound(s) && Lifo(s) && |s.connections| == 3
    ensures Sound(Resized(s, 2)) && !KeepsNewest(Resized(s, 2), 1)
  {
    var t := Resized(s, 2);
    NextSound(s, SetCapacity(2));
    assert t.connections == [s.connections[1], s.connections[0]];
    assert Resized(t, 1).connections == [t.connections[0]];
    assert t.connections[0] in t.connections && t.connections[1] in t.connections;
  }

  // ---------- blacklisting ----------

  ghost predicate Blacklisted(s: State, now: int)
  {
    now <= s.until
  }

  lemma RunMore(capacity: nat, steps: seq<Step>, step: Step)
    ensures Run(capacity, steps + [step]) == Next(Run(capacity, steps), step)
  {
  }

  /** Before the first error the pool is not blacklisted. */
  lemma {:induction false} NotBlacklistedAtFirst(capacity: nat, steps: seq<Step>, now: int)
    requires forall k :: 0 <= k < |steps| ==> !steps[k].Error?
    ensures Blacklisted(Run(capacity, steps), now) <==> now <= -0x8000_0000_0000_0000
  {
    if steps != [] {
      NotBlacklistedAtFirst(capacity, steps[..|steps| - 1], now);
    }
  }

  /** An error counts until the next one, whatever happens in between: it blacklists the pool up to and including the
      end of its period. */
  lemma {:induction false} LatestErrorCounts(capacity: nat, before: seq<Step>, at: int, secs: nat, since: seq<Step>,
                                             now: int)
    requires forall k :: 0 <= k < |since| ==> !since[k].Error?
    ensures Blacklisted(Run(capacity, before + [Error(at, secs)] + since), now) <==> now <= at + secs
  {
    var first := before + [Error(at, secs)];
    if since == [] {
      RunMore(capacity, before, Error(at, secs));
      assert first + since == first;
    } else {
      var n := |since| - 1;
      LatestErrorCounts(capacity, before, at, secs, since[..n], now);
      RunMore(capacity, first + since[..n], since[n]);
      assert first + since[..n] + [since[n]] == first + since;
    }
  }

  // ---------- the pool itself ----------

  class Pool {
    var connections: seq<int>
    var capacity: nat
    var counters: Counters
    var until: int
    ghost var books: Books

    ghost function Snap(): State
      reads this
    {
      State(connections, capacity, counters, until, books)
    }

    constructor (cap: nat)
      ensures Snap() == Empty(cap)
    {
      connections, capacity, counters, until := [], cap, Counters(0, 0, 0, 0), LONG_AGO;
      books := Empty(cap).books;
    }

    /** The first section of get_connection: a pooled connection, if there is one. */
    method GetPooled() returns (c: Option<int>)
      modifies this
      ensures Snap() == Next(old(Snap()), Pop)
      ensures c == if old(connections) == [] then None else Some(old(connections[0]))
    {
      counters := counters.(getsFromPool := counters.getsFromPool + 1);
      c := None;
      if connections != [] {
        c := Some(connections[0]);
        books := books.(lent := books.lent + {connections[0]}, pops := books.pops + 1);
        connections := connections[1..];
      }
    }

    /** The rest of get_connection when the pool had none or was passed over: `made` is what the backend gave, which
        may be nothing. The connection is counted in a section of its own. */
    method GetNew(made: Option<int>, now: int, secs: nat)
      requires made.Some? ==> made.value !in books.created
      modifies this
      ensures Snap() == if made.Some? then Next(Next(old(Snap()), Make(made.value)), CountNew)
                        else Next(old(Snap()), Error(now, secs))
    {
      if made.Some? {
        books := books.(created := books.created + {made.value}, lent := books.lent + {made.value});
        counters := counters.(getsNew := counters.getsNew + 1);
      } else {
        Fail(now, secs);
      }
    }

    /** release_connection_, up to the deletion. */
    method Release(id: int, healthy: bool) returns (doomed: bool)
      requires id in books.lent
      modifies this
      ensures Snap() == Next(old(Snap()), Step.Release(id, healthy))
      ensures doomed <==> !healthy || old(|connections| >= capacity)
    {
      if healthy && |connections| < capacity {
        books := books.(lent := books.lent - {id}, judged := books.judged[id := true],
                        stamps := books.stamps[id := counters.putsToPool]);
        counters := counters.(putsToPool := counters.putsToPool + 1);
        connections := [id] + connections;
        doomed := false;
      } else {
        books := books.(lent := books.lent - {id}, doomed := books.doomed + {id},
                        judged := books.judged[id := healthy]);
        counters := counters.(putsDelete := counters.putsDelete + 1);
        doomed := true;
      }
    }

    /** The loop of capacity: the first `n` connections go one by one to the front of another list. */
    method MoveFront(n: nat) returns (tmp: seq<int>)
      requires n <= |connections|
      modifies this`connections
      ensures tmp == Reversed(old(connections)[..n]) && connections == old(connections)[n..]
    {
      ghost var all := connections;
      tmp := [];
      var i := 0;
      while i < n
        invariant 0 <= i <= n && connections == all[i..] && tmp == Reversed(all[..i])
      {
        assert all[..i + 1][..i] == all[..i];
        tmp := [connections[0]] + tmp;
        connections := connections[1..];
        i := i + 1;
      }
    }

    /** The locked section of capacity; `rest` is what is cleared afterwards. */
    method Resize(cap: nat) returns (rest: seq<int>)
      modifies this
      ensures Snap() == Next(old(Snap()), SetCapacity(cap))
      ensures rest == if old(|connections|) > cap then old(connections)[cap..] else []
    {
      hide Reversed, Elements;
      rest := [];
      capacity := cap;
      if |connections| > capacity {
        var tmp := MoveFront(capacity);
        books := books.(doomed := books.doomed + Elements(connections), dropped := books.dropped + |connections|);
        connections, rest := tmp, connections;
      }
    }

    /** error: the pool is cleared within the section. */
    method Fail(now: int, secs: nat)
      modifies this
      ensures Snap() == Next(old(Snap()), Error(now, secs))
      ensures connections == [] && forall id <- old(connections) :: id in books.destroyed
    {
      until := now + secs;
      ghost var all := connections;
      ghost var gone := {};
      while connections != []
        invariant |connections| <= |all| && connections == all[|all| - |connections|..]
        invariant gone == Elements(all[..|all| - |connections|])
        invariant counters == old(counters) && capacity == old(capacity) && books == old(books)
        invariant until == now + secs
        decreases |connections|
      {
        gone := gone + {connections[0]};
        connections := connections[1..];
      }
      books := books.(destroyed := books.destroyed + gone, dropped := books.dropped + |all|);
    }
  }
}
