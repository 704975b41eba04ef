/** The cache that the filedriver keeps its extents in and the local backend its file descriptors:
    least recently used first, and entries in use are passed over when room is made. */
module LruCache {
  import opened Wrappers
  import opened Collections

  // ---------- which keys an eviction round leaves ----------

  /** `order` without its first `n` keys that are not busy. */
  function DropIdle<K(==)>(order: seq<K>, busy: set<K>, n: nat): seq<K>
  {
    if order == [] || n == 0 then order
    else if order[0] in busy then [order[0]] + DropIdle(order[1..], busy, n)
    else DropIdle(order[1..], busy, n - 1)
  }

  lemma {:induction false} DropFirstIdle<K>(before: seq<K>, k: K, after: seq<K>, busy: set<K>, n: nat)
    requires forall b <- before :: b in busy
    requires k !in busy && n > 0
    ensures DropIdle(before + [k] + after, busy, n) == DropIdle(before + after, busy, n - 1)
  {
    var all := before + [k] + after;
    if before == [] {
      assert all[1..] == after;
      assert before + after == after;
    } else {
      var rest := before[1..];
      assert all[1..] == rest + [k] + after && all[0] == before[0];
      assert (before + after)[1..] == rest + after;
      assert before + after == [before[0]] + (rest + after);
      DropFirstIdle(rest, k, after, busy, n);
      DropNothing(rest + after, busy);
    }
  }

  lemma DropNothing<K>(order: seq<K>, busy: set<K>)
    ensures DropIdle(order, busy, 0) == order
  {
  }

  lemma {:induction false} NothingIdleToDrop<K>(order: seq<K>, busy: set<K>, n: nat)
    requires forall k <- order :: k in busy
    ensures DropIdle(order, busy, n) == order
  {
    if order != [] {
      NothingIdleToDrop(order[1..], busy, n);
    }
  }

  function BusyOnly<K(==)>(order: seq<K>, busy: set<K>): seq<K>
  {
    if order == [] then []
    else (if order[0] in busy then [order[0]] else []) + BusyOnly(order[1..], busy)
  }

  /** An eviction round goes through the keys from the least recently used one on and stops after dropping `n`: of those
      that it passed only the busy ones stay, and all others stay, in the order they had. */
  lemma {:induction false} DropIdleIs<K>(order: seq<K>, busy: set<K>, n: nat) returns (p: nat)
    ensures p <= |order| && DropIdle(order, busy, n) == BusyOnly(order[..p], busy) + order[p..]
    ensures p - |BusyOnly(order[..p], busy)| <= n
    ensures p < |order| ==> p - |BusyOnly(order[..p], busy)| == n
  {
    if order == [] || n == 0 {
      p := 0;
      assert BusyOnly(order[..p], busy) == [];
    } else {
      var rest := order[1..];
      var q := DropIdleIs(rest, busy, if order[0] in busy then n else n - 1);
      p := q + 1;
      assert order[..p][1..] == rest[..q] && order[p..] == rest[q..];
    }
  }

  /** Busy keys stay, and at most `n` keys go: fewer only when nothing idle is left. */
  lemma {:induction false} DropIdleKeeps<K>(order: seq<K>, busy: set<K>, n: nat)
    ensures forall k <- order :: k in busy ==> k in DropIdle(order, busy, n)
    ensures forall k <- DropIdle(order, busy, n) :: k in order
    ensures |order| - n <= |DropIdle(order, busy, n)| <= |order|
    ensures |DropIdle(order, busy, n)| > |order| - n ==> forall k <- DropIdle(order, busy, n) :: k in busy
  {
    if order != [] && n != 0 {
      if order[0] in busy {
        DropIdleKeeps(order[1..], busy, n);
      } else {
        DropIdleKeeps(order[1..], busy, n - 1);
      }
    }
  }

  /** Eviction follows recency: an idle key that survives is more recent than every key that does not. */
  lemma {:induction false} DropIdleIsLeastRecent<K>(order: seq<K>, busy: set<K>, n: nat, i: nat, j: nat)
    requires Distinct(order)
    requires i < j < |order|
    requires order[i] !in busy && order[i] in DropIdle(order, busy, n)
    ensures order[j] in DropIdle(order, busy, n)
  {
    if n != 0 {
      var rest := order[1..];
      if order[0] in busy {
        DropIdleIsLeastRecent(rest, busy, n, i - 1, j - 1);
      } else {
        DropIdleKeeps(rest, busy, n - 1);
        if i > 0 {
          DropIdleIsLeastRecent(rest, busy, n - 1, i - 1, j - 1);
        }
      }
    }
  }

  lemma {:induction false} DropIdleDistinct<K>(order: seq<K>, busy: set<K>, n: nat)
    requires Distinct(order)
    ensures Distinct(DropIdle(order, busy, n))
  {
    if order != [] && n != 0 {
      var rest := order[1..];
      var m := if order[0] in busy then n else n - 1;
      DropIdleDistinct(rest, busy, m);
      DropIdleKeeps(rest, busy, m);
    }
  }

  lemma CutOut<T>(s: seq<T>, i: nat)
    requires Distinct(s) && i < |s|
    ensures Distinct(s[..i] + s[i + 1..]) && Elements(s[..i] + s[i + 1..]) == Elements(s) - {s[i]}
    ensures s == s[..i] + [s[i]] + s[i + 1..]
  {
  }

  function Without<K(==)>(order: seq<K>, k: K): seq<K>
  {
    if order == [] then []
    else if order[0] == k then order[1..]
    else [order[0]] + Without(order[1..], k)
  }

  /** Taking a key out leaves the others in their order. */
  lemma {:induction false} WithoutIs<K>(a: seq<K>, k: K, b: seq<K>)
    requires k !in a
    ensures Without(a + [k] + b, k) == a + b
    ensures Without(a, k) == a
  {
    if a == [] {
      assert ([k] + b)[1..] == b && a + [k] + b == [k] + b && a + b == b;
    } else {
      WithoutIs(a[1..], k, b);
      assert (a + [k] + b)[1..] == a[1..] + [k] + b && a + b == [a[0]] + (a[1..] + b);
    }
  }

  lemma {:induction false} WithoutMembers<K>(order: seq<K>, k: K, x: K)
    requires Distinct(order)
    ensures x in Without(order, k) <==> x in order && x != k
  {
    if order != [] {
      if order[0] != k {
        WithoutMembers(order[1..], k, x);
      }
    }
  }

  lemma {:induction false} WithoutDistinct<K>(order: seq<K>, k: K)
    requires Distinct(order)
    ensures Distinct(Without(order, k))
    ensures |Without(order, k)| == if k in order then |order| - 1 else |order|
  {
    if order != [] && order[0] != k {
      WithoutDistinct(order[1..], k);
      WithoutMembers(order[1..], k, order[0]);
    }
  }

  lemma WithoutKey<K>(order: seq<K>, k: K)
    requires Distinct(order)
    ensures Distinct(Without(order, k))
    ensures Elements(Without(order, k)) == Elements(order) - {k}
    ensures |Without(order, k)| == if k in order then |order| - 1 else |order|
  {
    WithoutDistinct(order, k);
    forall x | x in order + Without(order, k)
      ensures x in Elements(Without(order, k)) <==> x in Elements(order) - {k}
    {
      WithoutMembers(order, k, x);
    }
  }

  /** How many keys have to go for one more to fit. */
  function Surplus(n: nat, capacity: nat): nat
  {
    if n > capacity - 1 then n - (capacity - 1) else 0
  }

  // ---------- the cache ----------

  class Cache<K(==), V> {
    /** Least recently used key first. */
    var order: seq<K>
    var vals: map<K, V>
    var capacity: nat

    ghost predicate Valid()
      reads this
    {
      && 0 < capacity
      && Distinct(order)
      && vals.Keys == Elements(order)
      && |order| <= capacity
    }

    constructor (cap: nat)
      requires 0 < cap
      ensures Valid() && vals == map[] && capacity == cap
    {
      order, vals, capacity := [], map[], cap;
    }

    /** A hit makes the entry the most recently used one. */
    method Lookup(k: K) returns (r: Option<V>)
      requires Valid()
      modifies this`order
      ensures Valid()
      ensures r == if k in vals then Some(vals[k]) else None
      ensures order == if k in vals then Without(old(order), k) + [k] else old(order)
    {
      if k in vals {
        WithoutKey(order, k);
        order := Without(order, k) + [k];
        assert Elements(order) == Elements(Without(old(order), k)) + {k};
        r := Some(vals[k]);
      } else {
        r := None;
      }
    }

    /** Evicts idle entries, oldest first, until at most `cap` are left; fails when only busy ones are. */
    method MaybeEvict(cap: nat, busy: set<K>) returns (ok: bool)
      requires Valid()
      modifies this`order, this`vals
      ensures Valid()
      ensures order == DropIdle(old(order), busy, if |old(order)| > cap then |old(order)| - cap else 0)
      ensures ok <==> |order| <= cap
      ensures forall k <- vals :: k in old(vals) && vals[k] == old(vals)[k]
    {
      hide DropIdle, Distinct, Elements;
      var it := 0;
      while |order| > cap
        invariant Valid()
        invariant 0 <= it <= |order| <= |old(order)|
        invariant forall k <- order[..it] :: k in busy
        invariant DropIdle(order, busy, if |order| > cap then |order| - cap else 0)
               == DropIdle(old(order), busy, if |old(order)| > cap then |old(order)| - cap else 0)
        invariant forall k <- vals :: k in old(vals) && vals[k] == old(vals)[k]
        decreases |order|, |order| - it
      {
        if it == |order| {
          NothingIdleToDrop(order, busy, |order| - cap);
          return false;
        }
        var k := order[it];
        if k !in busy {
          DropFirstIdle(order[..it], k, order[it + 1..], busy, |order| - cap);
          CutOut(order, it);
          order, vals := order[..it] + order[it + 1..], vals - {k};
          it := 0;
        } else {
          it := it + 1;
        }
      }
      DropNothing(order, busy);
      return true;
    }

    /** Adds a fetched value; when no room can be made the value is dropped again. */
    method Insert(k: K, v: V, busy: set<K>) returns (ok: bool)
      requires Valid() && k !in vals
      modifies this`order, this`vals
      ensures Valid()
      ensures var left := DropIdle(old(order), busy, Surplus(|old(order)|, capacity));
              && (ok <==> |left| < capacity)
              && order == if ok then left + [k] else left
      ensures ok ==> k in vals && vals[k] == v
      ensures forall j <- vals :: (j == k && ok) || (j in old(vals) && vals[j] == old(vals)[j])
    {
      ok := MaybeEvict(capacity - 1, busy);
      if ok {
        order, vals := order + [k], vals[k := v];
      }
    }

    /** Refuses to remove an entry that is in use. */
    method Erase(k: K, busy: set<K>) returns (ok: bool)
      requires Valid()
      modifies this`order, this`vals
      ensures Valid()
      ensures ok <==> k !in old(vals) || k !in busy
      ensures vals == if ok then old(vals) - {k} else old(vals)
      ensures order == if ok then Without(old(order), k) else old(order)
    {
      if k in vals && k in busy {
        ok := false;
      } else {
        EraseNoEvict(k);
        ok := true;
      }
    }

    method EraseNoEvict(k: K)
      requires Valid()
      modifies this`order, this`vals
      ensures Valid()
      ensures vals == old(vals) - {k} && order == Without(old(order), k)
    {
      WithoutKey(order, k);
      order, vals := Without(order, k), vals - {k};
    }

    /** Lowers or raises the capacity; a failed round keeps the old capacity. */
    method SetCapacity(cap: nat, busy: set<K>) returns (ok: bool)
      requires Valid()
      modifies this
      ensures Valid()
      ensures order == if cap == 0 then old(order)
                       else DropIdle(old(order), busy, if |old(order)| > cap then |old(order)| - cap else 0)
      ensures ok <==> cap > 0 && |order| <= cap
      ensures capacity == if ok then cap else old(capacity)
      ensures forall k <- vals :: k in old(vals) && vals[k] == old(vals)[k]
      ensures forall k <- old(vals) :: k in busy ==> k in vals
    {
      if cap == 0 {
        return false;
      }
      DropIdleKeeps(order, busy, if |order| > cap then |order| - cap else 0);
      ok := MaybeEvict(cap, busy);
      if ok {
        capacity := cap;
      }
    }

    /** What other threads' fetches can do in between: evict any entries that are not in use. */
    method OtherThreads()
      requires Valid()
      modifies this`order, this`vals
      ensures Valid()
      ensures forall k <- vals :: k in old(vals) && vals[k] == old(vals)[k]
    {
      var room: nat := *;
      var busy: set<K> := *;
      var _ := MaybeEvict(room, busy);
    }

    /** The value of an entry is a file that its holder changes in place. */
    method Overwrite(k: K, v: V)
      requires Valid() && k in vals
      modifies this`vals
      ensures Valid() && vals == old(vals)[k := v]
    {
      vals := vals[k := v];
    }
  }
}
