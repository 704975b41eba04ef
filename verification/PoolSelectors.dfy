/** Which connection pool the next attempt of a request goes to. */
module PoolSelectors {
  import opened Wrappers
  import opened Rotation
  import opened Values

  // ---------- going round ----------

  ghost predicate Rising(s: seq<nat>)
  {
    forall a, b :: 0 <= a < b < |s| ==> s[a] < s[b]
  }

  /** The pool that lies `p` places round from `start` is not blacklisted. */
  predicate IsFree(blacklisted: seq<bool>, start: nat, p: nat)
  {
    start < |blacklisted| && p < |blacklisted| && !blacklisted[Around(|blacklisted|, start, p)]
  }

  /** How far round from `start` the pools that are not blacklisted lie, from place `j` on. */
  function FreeFrom(blacklisted: seq<bool>, start: nat, j: nat): (places: seq<nat>)
    requires start < |blacklisted| && j <= |blacklisted|
    ensures forall a :: 0 <= a < |places| ==> j <= places[a] && IsFree(blacklisted, start, places[a])
    ensures Rising(places)
    ensures forall p :: j <= p && IsFree(blacklisted, start, p) ==> p in places
    decreases |blacklisted| - j
  {
    if j == |blacklisted| then []
    else if IsFree(blacklisted, start, j) then [j] + FreeFrom(blacklisted, start, j + 1)
    else FreeFrom(blacklisted, start, j + 1)
  }

  function FreePlaces(blacklisted: seq<bool>, start: nat): seq<nat>
    requires start < |blacklisted|
  {
    FreeFrom(blacklisted, start, 0)
  }

  /** The usable pool that is number `t` from `start` on. */
  function FreeAt(blacklisted: seq<bool>, start: nat, t: nat): (i: nat)
    requires start < |blacklisted| && t < |FreePlaces(blacklisted, start)|
    ensures i < |blacklisted| && !blacklisted[i]
  {
    Around(|blacklisted|, start, FreePlaces(blacklisted, start)[t])
  }

  /** The first pool from `start` on that is not blacklisted. */
  function NextFree(blacklisted: seq<bool>, start: nat): (r: Option<nat>)
    requires start < |blacklisted|
    ensures r.Some? ==> r.value < |blacklisted| && !blacklisted[r.value]
  {
    if FreePlaces(blacklisted, start) == [] then None else Some(FreeAt(blacklisted, start, 0))
  }

  /** The pool that an attempt starting from `start` goes to; `dice` is rolled when all pools are blacklisted. */
  function Picked(blacklisted: seq<bool>, start: nat, dice: nat): (i: nat)
    requires start < |blacklisted| && dice < |blacklisted|
    ensures i < |blacklisted|
  {
    if NextFree(blacklisted, start).Some? then NextFree(blacklisted, start).value else dice
  }

  lemma NextFreeAt(blacklisted: seq<bool>, start: nat, j: nat)
    requires start < |blacklisted| && j < |blacklisted|
    requires !blacklisted[Around(|blacklisted|, start, j)]
    requires forall k :: 0 <= k < j ==> blacklisted[Around(|blacklisted|, start, k)]
    ensures NextFree(blacklisted, start) == Some(Around(|blacklisted|, start, j))
  {
    var places := FreePlaces(blacklisted, start);
    assert IsFree(blacklisted, start, j) && j in places;
    assert IsFree(blacklisted, start, places[0]);
  }

  lemma NoneFree(blacklisted: seq<bool>, start: nat)
    requires start < |blacklisted|
    requires forall k :: 0 <= k < |blacklisted| ==> blacklisted[Around(|blacklisted|, start, k)]
    ensures NextFree(blacklisted, start) == None
  {
  }

  // ---------- the selector that sticks to a namespace's pool ----------

  class NamespacePoolSelector {
    /** The number of pools and the one that the namespace hashes to. */
    const n: nat
    const idx: nat
    var lastIdx: nat
    var startFromLast: bool

    ghost predicate Valid()
      reads this
    {
      idx < n && lastIdx < n
    }

    function Start(): nat
      reads this
    {
      if startFromLast then lastIdx else idx
    }

    constructor (pools: nat, hash: nat)
      requires 0 < pools
      ensures Valid() && n == pools && idx == hash % pools && lastIdx == idx && !startFromLast
    {
      n, idx, lastIdx, startFromLast := pools, hash % pools, hash % pools, false;
    }

    /** Probes from the start index on; `dice` is picked when all pools are blacklisted. */
    method Pool(blacklisted: seq<bool>, dice: nat) returns (i: nat)
      requires Valid() && |blacklisted| == n && dice < n
      modifies this`lastIdx
      ensures Valid() && lastIdx == i
      ensures i == Picked(blacklisted, old(Start()), dice)
    {
      var start := Start();
      i := start;
      ghost var k := 0;
      while true
        invariant 0 <= k < n && i == Around(n, start, k)
        invariant forall j :: 0 <= j < k ==> blacklisted[Around(n, start, j)]
        decreases n - k
      {
        if !blacklisted[i] {
          NextFreeAt(blacklisted, start, k);
          break;
        }
        i := i + 1;
        if i == n {
          i := 0;
        }
        if i == start {
          NoneFree(blacklisted, start);
          i := dice;
          break;
        }
        k := k + 1;
      }
      lastIdx := i;
    }

    /** backend_error and request_timeout: move on, if the policy says so. */
    method MoveOn(switch_: bool)
      requires Valid()
      modifies this
      ensures Valid()
      ensures startFromLast == (old(startFromLast) || switch_)
      ensures lastIdx == if switch_ then After(n, old(lastIdx)) else old(lastIdx)
    {
      if switch_ {
        startFromLast := true;
        lastIdx := (lastIdx + 1) % n;
      }
    }

    /** connection_error blames the pool that was used last. */
    function Blamed(): nat
      reads this
    {
      lastIdx
    }
  }

  // ---------- consecutive attempts ----------

  /** The pool of attempt `k` when every attempt fails and moves on. */
  function Visited(blacklisted: seq<bool>, start: nat, k: nat): (i: nat)
    requires start < |blacklisted| && FreePlaces(blacklisted, start) != []
    ensures i < |blacklisted| && !blacklisted[i]
  {
    if k == 0 then FreeAt(blacklisted, start, 0)
    else
      var next := After(|blacklisted|, Visited(blacklisted, start, k - 1));
      SomeFreeFromAnywhere(blacklisted, Visited(blacklisted, start, k - 1), next);
      FreeAt(blacklisted, next, 0)
  }

  lemma VisitedAtStart(blacklisted: seq<bool>, start: nat)
    requires start < |blacklisted| && FreePlaces(blacklisted, start) != []
    ensures NextFree(blacklisted, start) == Some(Visited(blacklisted, start, 0))
  {
  }

  lemma VisitedNext(blacklisted: seq<bool>, start: nat, k: nat)
    requires start < |blacklisted| && FreePlaces(blacklisted, start) != [] && 0 < k
    ensures NextFree(blacklisted, After(|blacklisted|, Visited(blacklisted, start, k - 1)))
         == Some(Visited(blacklisted, start, k))
  {
    hide FreePlaces;
    var last := Visited(blacklisted, start, k - 1);
    var next := After(|blacklisted|, last);
    SomeFreeFromAnywhere(blacklisted, last, next);
  }

  lemma SomeFreeFromAnywhere(blacklisted: seq<bool>, free: nat, start: nat)
    requires start < |blacklisted| && free < |blacklisted| && !blacklisted[free]
    ensures FreePlaces(blacklisted, start) != []
  {
    var n := |blacklisted|;
    var j := if free >= start then free - start else free + n - start;
    assert Around(n, start, j) == free;
    assert j in FreePlaces(blacklisted, start);
  }

  lemma NothingBetween(places: seq<nat>, t: nat, q: nat)
    requires Rising(places) && t < |places| && places[t] < q
    requires t + 1 < |places| ==> q < places[t + 1]
    ensures q !in places
  {
  }

  lemma NothingBefore(places: seq<nat>, q: nat)
    requires Rising(places) && (places != [] ==> q < places[0])
    ensures q !in places
  {
  }

  /** The place `k` after the one that follows place `o`. */
  function PlaceAfter(n: nat, o: nat, k: nat): (place: nat)
    requires o < n && k < n
    ensures place < n
  {
    if o + 1 + k < n then o + 1 + k else o + 1 + k - n
  }

  lemma AroundAfter(n: nat, start: nat, o: nat, k: nat)
    requires start < n && o < n && k < n
    ensures Around(n, After(n, Around(n, start, o)), k) == Around(n, start, PlaceAfter(n, o, k))
  {
  }

  /** How many places to go on from the free place `t` to get past the pools that are blacklisted. */
  ghost function Gap(n: nat, places: seq<nat>, t: nat): int
    requires t < |places|
  {
    if t + 1 < |places| then places[t + 1] - places[t] - 1 else n - places[t] - 1 + places[0]
  }

  lemma GapIsBlacklisted(blacklisted: seq<bool>, start: nat, t: nat, k: nat)
    requires start < |blacklisted| && t < |FreePlaces(blacklisted, start)|
    requires k < |blacklisted| && k < Gap(|blacklisted|, FreePlaces(blacklisted, start), t)
    ensures var n, o := |blacklisted|, FreePlaces(blacklisted, start)[t];
            blacklisted[Around(n, start, PlaceAfter(n, o, k))]
  {
    var n, places := |blacklisted|, FreePlaces(blacklisted, start);
    var place := PlaceAfter(n, places[t], k);
    if places[t] + 1 + k < n {
      NothingBetween(places, t, place);
    } else {
      NothingBefore(places, place);
    }
  }

  lemma GapEnds(blacklisted: seq<bool>, start: nat, t: nat)
    requires start < |blacklisted| && t < |FreePlaces(blacklisted, start)|
    ensures var n, places := |blacklisted|, FreePlaces(blacklisted, start);
            0 <= Gap(n, places, t) < n && PlaceAfter(n, places[t], Gap(n, places, t)) == places[After(|places|, t)]
  {
  }

  /** One turn: from the usable pool number `t` the next one is number `t + 1`, or the first again. */
  lemma NextTurn(blacklisted: seq<bool>, start: nat, t: nat)
    requires start < |blacklisted| && t < |FreePlaces(blacklisted, start)|
    ensures NextFree(blacklisted, After(|blacklisted|, FreeAt(blacklisted, start, t)))
         == Some(FreeAt(blacklisted, start, After(|FreePlaces(blacklisted, start)|, t)))
  {
    var n, places := |blacklisted|, FreePlaces(blacklisted, start);
    var o := places[t];
    hide FreePlaces, NextFree, Around, Gap, PlaceAfter;
    var from := After(n, Around(n, start, o));
    GapEnds(blacklisted, start, t);
    var j := Gap(n, places, t);
    forall k | 0 <= k < j
      ensures blacklisted[Around(n, from, k)]
    {
      GapIsBlacklisted(blacklisted, start, t, k);
      AroundAfter(n, start, o, k);
    }
    AroundAfter(n, start, o, j);
    NextFreeAt(blacklisted, from, j);
  }

  /** Counting round `m` places. */
  function Turn(k: nat, m: nat): (t: nat)
    requires 0 < m
    ensures t < m && (k < m ==> t == k)
  {
    if k == 0 then 0 else After(m, Turn(k - 1, m))
  }

  /** Attempts that each fail and move on go through the usable pools in cyclic order, over and over. */
  lemma {:induction false} VisitedInOrder(blacklisted: seq<bool>, start: nat, k: nat)
    requires start < |blacklisted| && FreePlaces(blacklisted, start) != []
    ensures Visited(blacklisted, start, k)
         == FreeAt(blacklisted, start, Turn(k, |FreePlaces(blacklisted, start)|))
  {
    var m := |FreePlaces(blacklisted, start)|;
    if k > 0 {
      var t := Turn(k - 1, m);
      assert Turn(k, m) == After(m, t);
      hide FreePlaces, Turn, Visited, FreeAt;
      VisitedInOrder(blacklisted, start, k - 1);
      VisitedOn(blacklisted, start, k, t);
    } else {
      hide FreePlaces, FreeAt;
    }
  }

  lemma VisitedOn(blacklisted: seq<bool>, start: nat, k: nat, t: nat)
    requires start < |blacklisted| && t < |FreePlaces(blacklisted, start)| && 0 < k
    requires Visited(blacklisted, start, k - 1) == FreeAt(blacklisted, start, t)
    ensures Visited(blacklisted, start, k)
         == FreeAt(blacklisted, start, After(|FreePlaces(blacklisted, start)|, t))
  {
    hide *;
    VisitedNext(blacklisted, start, k);
    NextTurn(blacklisted, start, t);
  }

  lemma VisitedFirst(blacklisted: seq<bool>, start: nat, a: nat)
    requires start < |blacklisted| && a < |FreePlaces(blacklisted, start)|
    ensures Visited(blacklisted, start, a) == FreeAt(blacklisted, start, a)
  {
    VisitedInOrder(blacklisted, start, a);
  }

  lemma VisitedApart(blacklisted: seq<bool>, start: nat, a: nat, b: nat)
    requires start < |blacklisted| && a < b < |FreePlaces(blacklisted, start)|
    ensures Visited(blacklisted, start, a) != Visited(blacklisted, start, b)
  {
    VisitedFirst(blacklisted, start, a);
    VisitedFirst(blacklisted, start, b);
    hide Visited;
  }

  lemma VisitedAgain(blacklisted: seq<bool>, start: nat)
    requires start < |blacklisted| && FreePlaces(blacklisted, start) != []
    ensures Visited(blacklisted, start, |FreePlaces(blacklisted, start)|) == Visited(blacklisted, start, 0)
  {
    var m := |FreePlaces(blacklisted, start)|;
    VisitedInOrder(blacklisted, start, m);
    VisitedInOrder(blacklisted, start, 0);
    assert Turn(m - 1, m) == m - 1;
    hide Visited, FreePlaces, FreeAt;
  }

  /** One of the first `m` attempts uses pool `i`. */
  ghost predicate IsVisited(blacklisted: seq<bool>, start: nat, m: nat, i: nat)
    requires start < |blacklisted| && FreePlaces(blacklisted, start) != []
  {
    exists a :: 0 <= a < m && Visited(blacklisted, start, a) == i
  }

  /** So with `m` usable pools, `m` attempts in a row use each of them exactly once, and the next one is back at
      the first. */
  lemma EachUsedOnce(blacklisted: seq<bool>, start: nat)
    requires start < |blacklisted| && FreePlaces(blacklisted, start) != []
    ensures var m := |FreePlaces(blacklisted, start)|;
            && (forall a, b :: 0 <= a < b < m ==> Visited(blacklisted, start, a) != Visited(blacklisted, start, b))
            && (forall i :: 0 <= i < |blacklisted| && !blacklisted[i] ==> IsVisited(blacklisted, start, m, i))
            && Visited(blacklisted, start, m) == Visited(blacklisted, start, 0)
  {
    hide Visited, FreePlaces, FreeAt;
    var n, places := |blacklisted|, FreePlaces(blacklisted, start);
    VisitedAgain(blacklisted, start);
    forall a, b | 0 <= a < b < |places|
      ensures Visited(blacklisted, start, a) != Visited(blacklisted, start, b)
    {
      VisitedApart(blacklisted, start, a, b);
    }
    forall i | 0 <= i < n && !blacklisted[i]
      ensures IsVisited(blacklisted, start, |places|, i)
    {
      var a := PlaceOf(blacklisted, start, i);
      VisitedFirst(blacklisted, start, a);
    }
  }

  lemma PlaceOf(blacklisted: seq<bool>, start: nat, i: nat) returns (a: nat)
    requires start < |blacklisted| && i < |blacklisted| && !blacklisted[i]
    ensures a < |FreePlaces(blacklisted, start)|
    ensures FreeAt(blacklisted, start, a) == i
  {
    var n, places := |blacklisted|, FreePlaces(blacklisted, start);
    var j := if i >= start then i - start else i + n - start;
    assert Around(n, start, j) == i && j in places;
    a :| 0 <= a < |places| && places[a] == j;
  }

  // ---------- the selector that goes round ----------

  function Rem(x: nat, n: nat): (r: nat)
    requires 0 < n
    ensures r < n
  {
    x % n
  }

  function Wrapped(x: nat): nat
  {
    x % TWO_64
  }

  /** The shared 64-bit counter. */
  class Counter {
    var next: nat

    ghost predicate Valid()
      reads this
    {
      next < TWO_64
    }

    /** round_robin_select_. */
    method Select(n: nat) returns (i: nat)
      requires Valid() && 0 < n
      modifies this
      ensures Valid() && i == Rem(old(next), n) && next == Wrapped(old(next) + 1)
    {
      i := Rem(next, n);
      next := Wrapped(next + 1);
    }
  }

  /** The pool of probe `t` when the counter stands at `c` and nobody else selects. */
  function Probed(c: nat, t: nat, n: nat): (i: nat)
    requires 0 < n
    ensures i < n
  {
    Rem(Wrapped(c + t), n)
  }

  /** The first `k` probes find blacklisted pools. */
  ghost predicate ProbesFail(blacklisted: seq<bool>, c: nat, k: nat)
  {
    blacklisted != [] && forall t :: 0 <= t < k ==> blacklisted[Probed(c, t, |blacklisted|)]
  }

  /** Probe number `k` finds pool `i`, and the ones before it found blacklisted ones. */
  ghost predicate FoundAt(blacklisted: seq<bool>, c: nat, k: nat, i: nat)
  {
    ProbesFail(blacklisted, c, k) && i == Probed(c, k, |blacklisted|)
  }

  /** `k` probes found blacklisted pools, the last one `pool`. */
  ghost predicate Fruitless(blacklisted: seq<bool>, c: nat, k: nat, pool: Option<nat>)
  {
    && ProbesFail(blacklisted, c, k)
    && (k > 0 ==> pool.Some? && FoundAt(blacklisted, c, k - 1, pool.value))
  }

  /** After `probes` probes, the last one of which found `pool`, `i` is handed out: that pool if it is usable, and
      `dice` if there was a probe for each pool and none found a usable one. */
  ghost predicate Chosen(blacklisted: seq<bool>, c: nat, dice: nat, probes: nat, pool: Option<nat>, i: nat)
  {
    && 1 <= probes <= |blacklisted|
    && pool.Some? && pool.value < |blacklisted| && FoundAt(blacklisted, c, probes - 1, pool.value)
    && if blacklisted[pool.value] then probes == |blacklisted| && i == dice else i == pool.value
  }

  lemma ChosenIsProbed(blacklisted: seq<bool>, c: nat, dice: nat, probes: nat, pool: Option<nat>, i: nat)
    requires Chosen(blacklisted, c, dice, probes, pool, i)
    ensures probes > 0 && pool.Some? && pool.value == Probed(c, probes - 1, |blacklisted|)
  {
    hide Probed;
  }

  lemma NextProbe(blacklisted: seq<bool>, c: nat, dice: nat, next: nat, k: nat, pool: Option<nat>, i: nat)
    requires Fruitless(blacklisted, c, k, pool) && k < |blacklisted|
    requires next == Wrapped(c + k) && i == Rem(next, |blacklisted|)
    ensures Wrapped(next + 1) == Wrapped(c + (k + 1)) && i < |blacklisted|
    ensures if blacklisted[i] then Fruitless(blacklisted, c, k + 1, Some(i))
            else Chosen(blacklisted, c, dice, k + 1, Some(i), i)
  {
    hide Rem, Wrapped;
    WrappedNext(c + k);
  }

  lemma WrappedNext(x: nat)
    ensures Wrapped(Wrapped(x) + 1) == Wrapped(x + 1)
  {
  }

  lemma NoProbeLeft(blacklisted: seq<bool>, c: nat, dice: nat, pool: Option<nat>)
    requires Fruitless(blacklisted, c, |blacklisted|, pool) && blacklisted != []
    ensures Chosen(blacklisted, c, dice, |blacklisted|, pool, dice)
  {
    assert pool.value == Probed(c, |blacklisted| - 1, |blacklisted|);
  }

  class RoundRobinPoolSelector {
    const n: nat
    const counter: Counter
    /** The pool that the last probe found, which is the one that connection_error blames. */
    var pool: Option<nat>

    constructor (pools: nat, shared: Counter)
      requires 0 < pools
      ensures n == pools && counter == shared && pool == None
    {
      n, counter, pool := pools, shared, None;
    }

    /** At most one probe for each pool; `dice` is used when all of them were blacklisted. */
    method Pool(blacklisted: seq<bool>, dice: nat) returns (i: nat, ghost probes: nat)
      requires counter.Valid() && 0 < n && |blacklisted| == n && dice < n
      modifies this, counter
      ensures counter.Valid() && counter.next == Wrapped(old(counter.next) + probes)
      ensures Chosen(blacklisted, old(counter.next), dice, probes, pool, i)
      ensures probes > 0 && pool.Some? && Blamed() == Probed(old(counter.next), probes - 1, n)
    {
      ghost var c := counter.next;
      NoWrap(c);
      assert Fruitless(blacklisted, c, 0, pool);
      hide Fruitless, Chosen, Probed, Wrapped, Rem;
      var k := 0;
      while k < n
        invariant 0 <= k <= n && counter.Valid() && counter.next == Wrapped(c + k)
        invariant Fruitless(blacklisted, c, k, pool)
      {
        ghost var next, last := counter.next, pool;
        i := counter.Select(n);
        NextProbe(blacklisted, c, dice, next, k, last, i);
        pool := Some(i);
        k := k + 1;
        if !blacklisted[i] {
          ChosenIsProbed(blacklisted, c, dice, k, pool, i);
          return i, k;
        }
      }
      NoProbeLeft(blacklisted, c, dice, pool);
      ChosenIsProbed(blacklisted, c, dice, n, pool, dice);
      return dice, n;
    }

    /** connection_error blames the pool that was probed last. */
    function Blamed(): nat
      requires pool.Some?
      reads this
    {
      pool.value
    }
  }

  /** The pool that is blamed is the one that was handed out exactly when a probe found a usable one, or the dice fall
      on the last one probed. */
  lemma BlameIsRight(blacklisted: seq<bool>, c: nat, dice: nat, probes: nat, pool: Option<nat>, i: nat)
    requires Chosen(blacklisted, c, dice, probes, pool, i)
    ensures pool.value == i <==>
            !ProbesFail(blacklisted, c, |blacklisted|) || dice == Probed(c, |blacklisted| - 1, |blacklisted|)
  {
    hide Probed;
    assert pool.value == Probed(c, probes - 1, |blacklisted|);
  }

  /** With two blacklisted pools, the counter at zero and the dice on the first, that is handed out and the second is
      blamed. */
  lemma WrongPoolBlamed()
    ensures Chosen([true, true], 0, 0, 2, Some(1), 0)
  {
    ProbedBefore(0, 2, 1);
    RemIs(1, 2, 0, 1);
  }

  lemma NoWrap(x: nat)
    requires x < TWO_64
    ensures Wrapped(x) == x
  {
  }

  // ---------- when n probes reach n pools ----------

  lemma {:induction false} MulStep(a: nat, b: nat, m: nat)
    ensures a < b ==> a * m + m <= b * m
    decreases b
  {
    if a < b {
      assert b * m == (b - 1) * m + m;
      MulStep(a, b - 1, m);
    }
  }

  lemma RemIs(x: nat, m: nat, q: nat, r: nat)
    requires r < m && x == q * m + r
    ensures Rem(x, m) == r
  {
    var p := x / m;
    MulStep(p, q, m);
    MulStep(q, p, m);
  }

  lemma Remainders(a: nat, d: nat, n: nat)
    requires 0 < d < n
    ensures Rem(a, n) != Rem(a + d, n)
  {
    var q, r := a / n, a % n;
    assert a == q * n + r;
    RemIs(a, n, q, r);
    if r + d < n {
      RemIs(a + d, n, q, r + d);
    } else {
      assert a + d == (q + 1) * n + (r + d - n);
      RemIs(a + d, n, q + 1, r + d - n);
    }
  }

  lemma MultipleDropsOut(x: nat, n: nat, q: nat)
    requires 0 < n
    ensures Rem(x + q * n, n) == Rem(x, n)
  {
    var p, r := x / n, x % n;
    assert x + q * n == (p + q) * n + r;
    RemIs(x + q * n, n, p + q, r);
  }

  /** `n` probes reach `n` different pools. */
  ghost predicate ReachesAll(c: nat, n: nat)
    requires 0 < n
  {
    forall s, t :: 0 <= s < t < n ==> Probed(c, s, n) != Probed(c, t, n)
  }

  lemma ReachedInOrder(c: nat, n: nat)
    requires 0 < n && forall t :: 0 <= t < n ==> Probed(c, t, n) == Rem(c + t, n)
    ensures ReachesAll(c, n)
  {
    hide Rem, Probed;
    forall s, t | 0 <= s < t < n
      ensures Probed(c, s, n) != Probed(c, t, n)
    {
      Remainders(c + s, t - s, n);
    }
  }

  lemma Overrun(x: nat)
    requires TWO_64 <= x < 2 * TWO_64
    ensures Wrapped(x) == x - TWO_64
  {
  }

  lemma ProbedAfterOverrun(c: nat, n: nat, t: nat, q: nat)
    requires c < TWO_64 && 0 < n <= TWO_64 && t < n && TWO_64 == q * n
    ensures Probed(c, t, n) == Rem(c + t, n)
  {
    hide Rem, Wrapped;
    if c + t >= TWO_64 {
      Overrun(c + t);
      MultipleDropsOut(c + t - TWO_64, n, q);
    } else {
      NoWrap(c + t);
    }
  }

  lemma ProbedBefore(c: nat, n: nat, t: nat)
    requires 0 < n && c + t < TWO_64
    ensures Probed(c, t, n) == Rem(c + t, n)
  {
  }

  /** Two probes that meet when the counter runs over elsewhere. */
  lemma ProbesMeet(c: nat, n: nat, q: nat, r: nat)
    requires c < TWO_64 < c + n && n <= TWO_64
    requires TWO_64 == q * n + r && 0 < r < n
    ensures !ReachesAll(c, n)
  {
    var w := TWO_64 - c;
    hide Rem, Wrapped;
    if r <= w {
      RemIs(TWO_64 - r, n, q, 0);
      RemIs(0, n, 0, 0);
      ProbedBefore(c, n, w - r);
      Overrun(c + w);
      assert Probed(c, w - r, n) == Probed(c, w, n);
    } else {
      RemIs(TWO_64 - w, n, q, r - w);
      RemIs(r - w, n, 0, r - w);
      ProbedBefore(c, n, 0);
      Overrun(c + r);
      assert Probed(c, 0, n) == Probed(c, r, n);
    }
  }

  /** The probes of one call reach all pools exactly when the counter does not run over in between, or when it
      runs over at a multiple of the number of pools. */
  lemma ProbesReachAll(c: nat, n: nat)
    requires c < TWO_64 && 0 < n <= TWO_64
    ensures ReachesAll(c, n) <==> c + n <= TWO_64 || Rem(TWO_64, n) == 0
  {
    var q, r := TWO_64 / n, Rem(TWO_64, n);
    assert TWO_64 == q * n + r;
    hide Rem, Wrapped, ReachesAll;
    if c + n <= TWO_64 || r == 0 {
      forall t | 0 <= t < n
        ensures Probed(c, t, n) == Rem(c + t, n)
      {
        ProbedInTurn(c, n, t, q);
      }
      ReachedInOrder(c, n);
    } else {
      ProbesMeet(c, n, q, r);
    }
  }

  lemma ProbedInTurn(c: nat, n: nat, t: nat, q: nat)
    requires c < TWO_64 && 0 < n <= TWO_64 && t < n
    requires c + n <= TWO_64 || TWO_64 == q * n
    ensures Probed(c, t, n) == Rem(c + t, n)
  {
    if c + t < TWO_64 {
      ProbedBefore(c, n, t);
    } else {
      ProbedAfterOverrun(c, n, t, q);
    }
  }

  /** With three pools and the counter at its last value two of three probes are of the same pool. */
  lemma OverrunSkipsAPool()
    ensures !ReachesAll(TWO_64 - 1, 3)
  {
    ProbesReachAll(TWO_64 - 1, 3);
  }

  lemma RemainderReached(c: nat, n: nat, i: nat) returns (t: nat)
    requires i < n
    ensures t < n && Rem(c + t, n) == i
  {
    var q, r := c / n, c % n;
    assert c == q * n + r;
    if i >= r {
      t := i - r;
      RemIs(c + t, n, q, i);
    } else {
      t := i + n - r;
      assert c + t == (q + 1) * n + i;
      RemIs(c + t, n, q + 1, i);
    }
  }

  /** In the same cases every pool is among the probed ones, so if all probes found blacklisted pools then all
      pools are blacklisted: a usable one is found if there is one. */
  lemma UsablePoolFound(c: nat, blacklisted: seq<bool>)
    requires c < TWO_64 && 0 < |blacklisted| <= TWO_64
    requires c + |blacklisted| <= TWO_64 || Rem(TWO_64, |blacklisted|) == 0
    requires ProbesFail(blacklisted, c, |blacklisted|)
    ensures forall i :: 0 <= i < |blacklisted| ==> blacklisted[i]
  {
    var n := |blacklisted|;
    var q := TWO_64 / n;
    assert TWO_64 == q * n + Rem(TWO_64, n);
    hide Rem, Wrapped, Probed;
    forall i | 0 <= i < n
      ensures blacklisted[i]
    {
      var t := RemainderReached(c, n, i);
      ProbedInTurn(c, n, t, q);
    }
  }
}
