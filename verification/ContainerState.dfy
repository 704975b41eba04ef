/** What a container's file is, seen through its extents: the flat zero-extended byte array, the agreement
    between extent flags, cache and backend, and what one container's operations may touch. */
module ContainerState {
  import opened Wrappers
  import opened Values
  import opened ExtentName
  import opened Extent

  /** `int` indices in the source bound the number of extents. */
  const MAX_EXTENTS: nat := 0x7fff_ffff
  const MAX_SIZE: nat := MAX_EXTENTS * CAPACITY

  type Flags = f: seq<bool> | |f| <= MAX_EXTENTS

  type Cached = map<ExtentId, seq<byte>>

  datatype Snapshot = Snapshot(flags: Flags, cache: Cached, objects: Objects)

  predicate Flagged(flags: Flags, i: nat)
  {
    i < |flags| && flags[i]
  }

  /** What the backend holds for extent `i`, and nothing when the extent does not exist. */
  ghost function Content(id: string, s: Snapshot, i: nat): seq<byte>
  {
    if Flagged(s.flags, i) && Name(id, i) in s.objects then s.objects[Name(id, i)] else []
  }

  /** Byte `p` of the file. */
  ghost function Byte(id: string, s: Snapshot, p: nat): byte
  {
    ByteOf(Content(id, s, p / CAPACITY), p % CAPACITY)
  }

  // ---------- agreement of flags, cache and backend ----------

  predicate ExtentSized(content: seq<byte>)
  {
    0 < |content| <= CAPACITY
  }

  /** An extent is flagged exactly when the backend has its object, and only flagged extents are cached. */
  ghost predicate Agree(id: string, s: Snapshot)
  {
    && (forall i: U32 :: Flagged(s.flags, i) <==> Name(id, i) in s.objects)
    && (forall i: U32 :: Name(id, i) in s.objects ==> ExtentSized(s.objects[Name(id, i)]))
    && (forall i: U32 :: ExtentId(id, i) in s.cache ==>
                           Flagged(s.flags, i) && ExtentSized(s.cache[ExtentId(id, i)]))
  }

  /** No cached extent is ahead of the backend. */
  ghost predicate Coherent(id: string, s: Snapshot)
  {
    forall i: U32 :: ExtentId(id, i) in s.cache ==>
                       Name(id, i) in s.objects && s.cache[ExtentId(id, i)] == s.objects[Name(id, i)]
  }

  /** What agreement and coherence say about one cached extent. */
  lemma CachedExtent(id: string, s: Snapshot, i: U32)
    requires Agree(id, s)
    ensures Flagged(s.flags, i) <==> Name(id, i) in s.objects
    ensures Flagged(s.flags, i) ==> ExtentSized(s.objects[Name(id, i)])
    ensures ExtentId(id, i) in s.cache ==> Flagged(s.flags, i) && ExtentSized(s.cache[ExtentId(id, i)])
    ensures Coherent(id, s) && ExtentId(id, i) in s.cache ==> s.cache[ExtentId(id, i)] == s.objects[Name(id, i)]
  {
  }

  // ---------- what a step touches ----------

  ghost predicate SameObject(a: Objects, b: Objects, name: string)
  {
    (name in a <==> name in b) && (name in a ==> a[name] == b[name])
  }

  /** Every entry of `t` is one of `s`, unless it is the excepted one. */
  ghost predicate OnlyDrops(s: Cached, t: Cached, except: set<ExtentId>)
  {
    forall e <- t :: e !in except ==> e in s && t[e] == s[e]
  }

  /** Between `s` and `t` nothing but extent `i` of container `id` changed, up to cache evictions. */
  ghost predicate OnlyExtent(id: string, s: Snapshot, t: Snapshot, i: U32)
  {
    && (forall n: string :: n != Name(id, i) ==> SameObject(s.objects, t.objects, n))
    && OnlyDrops(s.cache, t.cache, {ExtentId(id, i)})
    && (forall j: nat :: j != i ==> (Flagged(t.flags, j) <==> Flagged(s.flags, j)))
  }

  /** Between `s` and `t` no object of another container changed and no extent of another one was cached. */
  ghost predicate Frame(id: string, s: Snapshot, t: Snapshot)
  {
    && (forall n: string :: !Owns(id, n) ==> SameObject(s.objects, t.objects, n))
    && (forall e <- t.cache :: e.container != id ==> e in s.cache && t.cache[e] == s.cache[e])
  }

  lemma OnlyExtentIsFramed(id: string, s: Snapshot, t: Snapshot, i: U32)
    requires OnlyExtent(id, s, t, i)
    ensures Frame(id, s, t)
  {
    NameIsOwned(id, i);
  }

  lemma FrameTransitive(id: string, s: Snapshot, t: Snapshot, u: Snapshot)
    requires Frame(id, s, t) && Frame(id, t, u)
    ensures Frame(id, s, u)
  {
  }

  lemma FrameReflexive(id: string, s: Snapshot)
    ensures Frame(id, s, s)
  {
  }

  lemma SameBytes(id: string, s: Snapshot, t: Snapshot)
    requires t.flags == s.flags && t.objects == s.objects
    ensures forall p: nat :: Byte(id, t, p) == Byte(id, s, p)
  {
  }

  lemma OtherContent(id: string, s: Snapshot, t: Snapshot, i: U32, j: nat)
    requires OnlyExtent(id, s, t, i) && j != i
    ensures Content(id, t, j) == Content(id, s, j)
  {
    if Flagged(s.flags, j) {
      NamesDiffer(id, i, id, j);
      assert SameObject(s.objects, t.objects, Name(id, j));
    }
  }

  /** The extents above `i` are as they were. */
  ghost predicate SameAbove(id: string, s: Snapshot, t: Snapshot, i: int)
  {
    forall j: nat :: i < j ==> Content(id, t, j) == Content(id, s, j)
  }

  lemma OthersAbove(id: string, s: Snapshot, t: Snapshot, i: U32)
    requires OnlyExtent(id, s, t, i)
    ensures SameAbove(id, s, t, i)
  {
    forall j: nat | i < j
      ensures Content(id, t, j) == Content(id, s, j)
    {
      OtherContent(id, s, t, i, j);
    }
  }

  lemma AboveTwice(id: string, s: Snapshot, m: Snapshot, t: Snapshot, a: int, b: int)
    requires SameAbove(id, s, m, a) && SameAbove(id, m, t, b) && a <= b
    ensures SameAbove(id, s, t, b)
  {
  }

  /** Storing a new version of extent `i`, in the cache and in the backend alike. */
  lemma StoredExtent(id: string, s: Snapshot, t: Snapshot, i: U32, content: seq<byte>)
    requires Agree(id, s) && ExtentSized(content)
    requires t.objects == s.objects[Name(id, i) := content]
    requires OnlyDrops(s.cache, t.cache, {ExtentId(id, i)})
    requires ExtentId(id, i) in t.cache && t.cache[ExtentId(id, i)] == content
    requires forall j: nat :: Flagged(t.flags, j) <==> (j == i || Flagged(s.flags, j))
    ensures Agree(id, t) && OnlyExtent(id, s, t, i)
    ensures Content(id, t, i) == content
    ensures Coherent(id, s) ==> Coherent(id, t)
  {
    forall j: U32
      ensures Name(id, j) == Name(id, i) <==> j == i
    {
      NamesDiffer(id, j, id, i);
    }
  }

  /** A step that leaves flags and backend alone and can only have lost cache entries, except that extent `i`
      may be cached differently. */
  lemma UnstoredExtent(id: string, s: Snapshot, t: Snapshot, i: U32)
    requires Agree(id, s)
    requires t.objects == s.objects && t.flags == s.flags
    requires OnlyDrops(s.cache, t.cache, {ExtentId(id, i)})
    requires ExtentId(id, i) in t.cache ==> Flagged(s.flags, i) && ExtentSized(t.cache[ExtentId(id, i)])
    ensures Agree(id, t) && OnlyExtent(id, s, t, i)
    ensures Coherent(id, s) ==>
              (Coherent(id, t) <==>
               (ExtentId(id, i) in t.cache ==> t.cache[ExtentId(id, i)] == s.objects[Name(id, i)]))
  {
  }

  /** A failed change of extent `i`: flags and backend agree as before, and the cache is ahead of the backend exactly
      when the extent existed and what is left of the change changes it. */
  lemma FailedChange(id: string, s: Snapshot, t: Snapshot, i: U32, left: Option<Edit>)
    requires Agree(id, s) && t.objects == s.objects && t.flags == s.flags
    requires OnlyDrops(s.cache, t.cache, {ExtentId(id, i)})
    requires ExtentId(id, i) in t.cache ==> Flagged(s.flags, i) && ExtentSized(t.cache[ExtentId(id, i)])
    requires Flagged(s.flags, i) && Coherent(id, s) ==>
               if ExtentId(id, i) in t.cache then t.cache[ExtentId(id, i)] == Left(Content(id, s, i), left)
               else left == None
    ensures Agree(id, t) && OnlyExtent(id, s, t, i)
    ensures Coherent(id, s) && !Flagged(s.flags, i) ==> Coherent(id, t)
    ensures Coherent(id, s) && Flagged(s.flags, i) ==>
              (Coherent(id, t) <==> Left(Content(id, s, i), left) == Content(id, s, i))
  {
    UnstoredExtent(id, s, t, i);
    CachedExtent(id, s, i);
    hide Agree, Coherent, OnlyExtent, OnlyDrops, Apply;
  }

  // ---------- the flat byte array ----------

  /** `data` is what the file holds from `pos` on. */
  ghost predicate IsSlice(id: string, s: Snapshot, pos: nat, data: seq<byte>)
  {
    forall k :: 0 <= k < |data| ==> data[k] == Byte(id, s, pos + k)
  }

  /** Bytes that lie in one extent. */
  lemma BytesOfExtent(id: string, s: Snapshot, pos: nat, i: nat, eoff: nat, content: seq<byte>, data: seq<byte>)
    requires pos == i * CAPACITY + eoff && eoff + |data| <= CAPACITY && content == Content(id, s, i)
    requires forall k :: 0 <= k < |data| ==> data[k] == ByteOf(content, eoff + k)
    ensures IsSlice(id, s, pos, data)
  {
  }

  /** What a read finds in an extent that was cached or fetched, with nothing else touched. */
  lemma FetchedChunk(id: string, s: Snapshot, t: Snapshot, i: U32, found: Option<seq<byte>>, pos: nat, eoff: nat,
                     len: nat)
    requires Agree(id, s) && Agree(id, t) && Flagged(s.flags, i)
    requires t.objects == s.objects && t.flags == s.flags && OnlyDrops(s.cache, t.cache, {ExtentId(id, i)})
    requires ExtentId(id, i) in t.cache ==>
               || (ExtentId(id, i) in s.cache && t.cache[ExtentId(id, i)] == s.cache[ExtentId(id, i)])
               || t.cache[ExtentId(id, i)] == s.objects[Name(id, i)]
    requires found.Some? ==> ExtentId(id, i) in t.cache && t.cache[ExtentId(id, i)] == found.value
    requires pos == i * CAPACITY + eoff && eoff + len <= CAPACITY
    ensures Frame(id, s, t) && (Coherent(id, s) ==> Coherent(id, t))
    ensures found.Some? && Coherent(id, s) ==> IsSlice(id, s, pos, ReadFilled(found.value, eoff, len))
  {
    hide Agree, Coherent, Frame, IsSlice, ReadFilled, ByteOf;
    CachedExtent(id, s, i);
    CachedExtent(id, t, i);
    UnstoredExtent(id, s, t, i);
    OnlyExtentIsFramed(id, s, t, i);
    if found.Some? && Coherent(id, s) {
      BytesOfExtent(id, s, pos, i, eoff, found.value, ReadFilled(found.value, eoff, len));
    }
  }

  lemma AbsentChunk(id: string, s: Snapshot, i: nat, pos: nat, eoff: nat, len: nat)
    requires !Flagged(s.flags, i) && pos == i * CAPACITY + eoff && eoff + len <= CAPACITY
    ensures Frame(id, s, s) && IsSlice(id, s, pos, Zeros(len))
  {
    BytesOfExtent(id, s, pos, i, eoff, [], Zeros(len));
  }

  /** `t` is `s` with exactly the bytes `[off, off + |data|)` replaced. */
  ghost predicate Overwritten(id: string, s: Snapshot, t: Snapshot, off: nat, data: seq<byte>)
  {
    forall p: nat :: Byte(id, t, p) == if off <= p < off + |data| then data[p - off] else Byte(id, s, p)
  }

  /** `t` is `s` with everything from `cut` on zero. */
  ghost predicate ZeroedFrom(id: string, s: Snapshot, t: Snapshot, cut: nat)
  {
    forall p: nat :: Byte(id, t, p) == if p < cut then Byte(id, s, p) else 0
  }

  lemma OverwrittenNothing(id: string, s: Snapshot, t: Snapshot, off: nat)
    requires forall j: nat :: Content(id, t, j) == Content(id, s, j)
    ensures Overwritten(id, s, t, off, [])
  {
  }

  lemma OverwrittenTwice(id: string, s: Snapshot, t: Snapshot, u: Snapshot, off: nat, a: seq<byte>, b: seq<byte>)
    requires Overwritten(id, s, t, off, a) && Overwritten(id, t, u, off + |a|, b)
    ensures Overwritten(id, s, u, off, a + b)
  {
  }

  lemma ChunkByte(before: seq<byte>, after: seq<byte>, i: nat, eoff: nat, data: seq<byte>, p: nat)
    requires after == PWrite(before, eoff, data) && p / CAPACITY == i
    ensures var off := i * CAPACITY + eoff;
            ByteOf(after, p % CAPACITY) ==
            if off <= p < off + |data| then data[p - off] else ByteOf(before, p % CAPACITY)
  {
  }

  /** A chunk written into one extent is the same bytes written into the flat array. */
  lemma ChunkOverwritten(id: string, s: Snapshot, t: Snapshot, off: nat, i: U32, eoff: nat, data: seq<byte>)
    requires off == i * CAPACITY + eoff && OnlyExtent(id, s, t, i) && eoff + |data| <= CAPACITY
    requires Content(id, t, i) == PWrite(Content(id, s, i), eoff, data)
    ensures Overwritten(id, s, t, off, data)
  {
    hide OnlyExtent, Content, PWrite, ByteOf;
    forall p: nat
      ensures Byte(id, t, p) == if off <= p < off + |data| then data[p - off] else Byte(id, s, p)
    {
      if p / CAPACITY == i {
        ChunkByte(Content(id, s, i), Content(id, t, i), i, eoff, data, p);
      } else {
        OtherContent(id, s, t, i, p / CAPACITY);
        assert !(off <= p < off + |data|);
      }
    }
  }

  /** Setting the last extent's length cuts the flat array there. */
  lemma TruncationZeroes(id: string, s: Snapshot, t: Snapshot, i: U32, n: nat)
    requires OnlyExtent(id, s, t, i) && 0 < n <= CAPACITY
    requires Content(id, t, i) == Truncate(Content(id, s, i), n)
    requires forall j: nat :: j > i ==> !Flagged(s.flags, j)
    ensures ZeroedFrom(id, s, t, i * CAPACITY + n)
  {
    var cut := i * CAPACITY + n;
    forall p: nat
      ensures Byte(id, t, p) == if p < cut then Byte(id, s, p) else 0
    {
      if p / CAPACITY == i {
        ApplyBytes(Content(id, s, i), SetLength(n), p % CAPACITY);
      } else {
        OtherContent(id, s, t, i, p / CAPACITY);
      }
    }
  }

  // ---------- where the data ends ----------

  function Max(a: nat, b: nat): nat
  {
    if a < b then b else a
  }

  /** First byte after what extent `i` holds. */
  ghost function Reach(id: string, s: Snapshot, i: nat): nat
  {
    i * CAPACITY + |Content(id, s, i)|
  }

  /** `e` is the first byte after everything the container holds. */
  ghost predicate IsEnd(id: string, s: Snapshot, e: nat)
  {
    && (forall i: nat :: Flagged(s.flags, i) ==> Reach(id, s, i) <= e)
    && (e == 0 || exists i: nat :: Flagged(s.flags, i) && Reach(id, s, i) == e)
  }

  lemma EndUnique(id: string, s: Snapshot, d: nat, e: nat)
    requires IsEnd(id, s, d) && IsEnd(id, s, e)
    ensures d == e
  {
  }

  lemma OverwrittenEnd(id: string, s: Snapshot, t: Snapshot, i: U32, eoff: nat, chunk: seq<byte>, e: nat)
    requires OnlyExtent(id, s, t, i) && Flagged(t.flags, i) && chunk != []
    requires Content(id, t, i) == PWrite(Content(id, s, i), eoff, chunk)
    requires IsEnd(id, s, e)
    ensures IsEnd(id, t, Max(e, i * CAPACITY + eoff + |chunk|))
  {
    ApplyLength(Content(id, s, i), Overwrite(eoff, chunk));
    forall j: nat | j != i
      ensures Reach(id, t, j) == Reach(id, s, j)
    {
      OtherContent(id, s, t, i, j);
    }
    var reach := i * CAPACITY + eoff + |chunk|;
    if e <= reach {
      assert Reach(id, t, i) == reach;
    } else {
      var j: nat :| Flagged(s.flags, j) && Reach(id, s, j) == e;
      assert Flagged(t.flags, j) && Reach(id, t, j) == e;
    }
  }

  /** After the last extent's length is set the data ends there. */
  lemma TruncatedEnd(id: string, s: Snapshot, t: Snapshot, i: U32, n: nat)
    requires OnlyExtent(id, s, t, i) && Flagged(t.flags, i) && Agree(id, s)
    requires 0 < n <= CAPACITY && Content(id, t, i) == Truncate(Content(id, s, i), n)
    requires forall j: nat :: j > i ==> !Flagged(s.flags, j)
    ensures IsEnd(id, t, i * CAPACITY + n)
  {
    forall j: nat | Flagged(t.flags, j)
      ensures Reach(id, t, j) <= i * CAPACITY + n
    {
      if j != i {
        OtherContent(id, s, t, i, j);
        assert Flagged(s.flags, j) && j < i;
      }
    }
    assert Reach(id, t, i) == i * CAPACITY + n;
  }

  // ---------- what a write does ----------

  /** `t` flags what `s` does and every extent that holds one of the `n` bytes from `off` on. */
  ghost predicate FlagsGrown(s: Flags, t: Flags, off: nat, n: nat)
  {
    forall j: nat :: Flagged(t, j) <==>
      (Flagged(s, j) || (n != 0 && off / CAPACITY <= j <= (off + n - 1) / CAPACITY))
  }

  /** Where the data ends after `n` bytes were written at `off`. */
  function EndMoved(e: nat, off: nat, n: nat): nat
  {
    if n == 0 then e else Max(e, off + n)
  }

  ghost predicate EndsMove(id: string, s: Snapshot, t: Snapshot, off: nat, n: nat)
  {
    forall e: nat :: IsEnd(id, s, e) ==> IsEnd(id, t, EndMoved(e, off, n))
  }

  /** `t` is `s` after `data` was written at `off`: the extents it touches exist, the flat array has exactly
      these bytes replaced, the data ends no earlier than before, and other containers are left alone. */
  ghost predicate Written(id: string, s: Snapshot, t: Snapshot, off: nat, data: seq<byte>)
  {
    && Frame(id, s, t)
    && FlagsGrown(s.flags, t.flags, off, |data|)
    && (Coherent(id, s) ==> Overwritten(id, s, t, off, data) && EndsMove(id, s, t, off, |data|))
  }

  lemma WrittenNothing(id: string, s: Snapshot, off: nat)
    ensures Written(id, s, s, off, [])
  {
  }

  /** One chunk stored in one extent. */
  lemma WrittenChunk(id: string, s: Snapshot, t: Snapshot, off: nat, i: U32, eoff: nat, chunk: seq<byte>)
    requires off == i * CAPACITY + eoff
    requires OnlyExtent(id, s, t, i) && Flagged(t.flags, i)
    requires Coherent(id, s) ==> Content(id, t, i) == PWrite(Content(id, s, i), eoff, chunk)
    requires chunk != [] && eoff + |chunk| <= CAPACITY
    ensures Written(id, s, t, off, chunk)
  {
    hide Frame, FlagsGrown, Overwritten, EndsMove, Coherent, OnlyExtent, PWrite, Content;
    OnlyExtentIsFramed(id, s, t, i);
    OneFlagGrown(id, s, t, off, i, eoff, |chunk|);
    if Coherent(id, s) {
      ChunkOverwritten(id, s, t, off, i, eoff, chunk);
      ChunkEnds(id, s, t, off, i, eoff, chunk);
    }
  }

  lemma ChunkEnds(id: string, s: Snapshot, t: Snapshot, off: nat, i: U32, eoff: nat, chunk: seq<byte>)
    requires off == i * CAPACITY + eoff && OnlyExtent(id, s, t, i) && Flagged(t.flags, i) && chunk != []
    requires Content(id, t, i) == PWrite(Content(id, s, i), eoff, chunk)
    ensures EndsMove(id, s, t, off, |chunk|)
  {
    hide OnlyExtent, PWrite, Content, IsEnd;
    forall e: nat | IsEnd(id, s, e)
      ensures IsEnd(id, t, EndMoved(e, off, |chunk|))
    {
      OverwrittenEnd(id, s, t, i, eoff, chunk, e);
    }
  }

  lemma OneFlagGrown(id: string, s: Snapshot, t: Snapshot, off: nat, i: U32, eoff: nat, n: nat)
    requires off == i * CAPACITY + eoff && 0 < n && eoff + n <= CAPACITY
    requires OnlyExtent(id, s, t, i) && Flagged(t.flags, i)
    ensures FlagsGrown(s.flags, t.flags, off, n)
  {
  }

  lemma FlagsGrownTwice(s: Flags, m: Flags, t: Flags, off: nat, a: nat, b: nat)
    requires FlagsGrown(s, m, off, a) && FlagsGrown(m, t, off + a, b)
    ensures FlagsGrown(s, t, off, a + b)
  {
  }

  lemma EndsMoveTwice(id: string, s: Snapshot, m: Snapshot, t: Snapshot, off: nat, a: nat, b: nat)
    requires EndsMove(id, s, m, off, a) && EndsMove(id, m, t, off + a, b)
    ensures EndsMove(id, s, t, off, a + b)
  {
  }

  lemma WrittenTwice(id: string, s: Snapshot, m: Snapshot, t: Snapshot, off: nat, a: seq<byte>,
                     mid: nat, b: seq<byte>, ab: seq<byte>)
    requires Written(id, s, m, off, a) && (Coherent(id, s) ==> Coherent(id, m))
    requires Written(id, m, t, mid, b)
    requires mid == off + |a| && ab == a + b
    ensures Written(id, s, t, off, ab)
  {
    hide Frame, FlagsGrown, EndsMove, Overwritten, Coherent;
    FrameTransitive(id, s, m, t);
    FlagsGrownTwice(s.flags, m.flags, t.flags, off, |a|, |b|);
    if Coherent(id, s) {
      OverwrittenTwice(id, s, m, t, off, a, b);
      EndsMoveTwice(id, s, m, t, off, |a|, |b|);
    }
  }

  /** Losing cache entries, or caching extent `i` differently, writes nothing. */
  lemma WrittenNone(id: string, s: Snapshot, t: Snapshot, i: U32, off: nat)
    requires OnlyExtent(id, s, t, i) && t.flags == s.flags && t.objects == s.objects
    ensures Written(id, s, t, off, [])
  {
    OnlyExtentIsFramed(id, s, t, i);
    forall j: nat
      ensures Content(id, t, j) == Content(id, s, j) && Reach(id, t, j) == Reach(id, s, j)
    {
    }
    OverwrittenNothing(id, s, t, off);
    forall e: nat | IsEnd(id, s, e)
      ensures IsEnd(id, t, e)
    {
      if e != 0 {
        var j: nat :| Flagged(s.flags, j) && Reach(id, s, j) == e;
        assert Flagged(t.flags, j) && Reach(id, t, j) == e;
      }
    }
  }

  /** Whole extents written before a place do not create the extent at that place. */
  lemma FirstChunkOfExtent(id: string, s: Snapshot, t: Snapshot, off: nat, data: seq<byte>)
    requires Written(id, s, t, off, data)
    requires data == [] || (off + |data|) % CAPACITY == 0
    ensures Flagged(t.flags, (off + |data|) / CAPACITY) <==> Flagged(s.flags, (off + |data|) / CAPACITY)
  {
  }

  // ---------- what a resize does ----------

  /** `t` is `s` without its extents from `n` on. */
  ghost predicate ExtentsBelow(id: string, s: Snapshot, t: Snapshot, n: nat)
  {
    && Frame(id, s, t)
    && (forall j: nat :: Flagged(t.flags, j) <==> (Flagged(s.flags, j) && j < n))
    && (forall j: nat :: j < n ==> Content(id, t, j) == Content(id, s, j))
  }

  lemma AllExtentsBelow(id: string, s: Snapshot, n: nat)
    requires forall j: nat :: Flagged(s.flags, j) ==> j < n
    ensures ExtentsBelow(id, s, s, n)
  {
  }

  lemma RemovedAgrees(id: string, s: Snapshot, t: Snapshot, i: U32)
    requires Agree(id, s) && Flagged(s.flags, i)
    requires forall j: nat :: j > i ==> !Flagged(s.flags, j)
    requires t == Snapshot(s.flags[..i], s.cache - {ExtentId(id, i)}, s.objects - {Name(id, i)})
    ensures Agree(id, t) && (Coherent(id, s) ==> Coherent(id, t))
  {
    forall j: U32
      ensures Name(id, j) == Name(id, i) <==> j == i
    {
      NamesDiffer(id, j, id, i);
    }
  }

  lemma RemovedExtent(id: string, s: Snapshot, t: Snapshot, i: U32)
    requires Agree(id, s) && Flagged(s.flags, i)
    requires forall j: nat :: j > i ==> !Flagged(s.flags, j)
    requires t == Snapshot(s.flags[..i], s.cache - {ExtentId(id, i)}, s.objects - {Name(id, i)})
    ensures Agree(id, t) && ExtentsBelow(id, s, t, i)
    ensures Coherent(id, s) ==> Coherent(id, t)
  {
    RemovedAgrees(id, s, t, i);
    ErasedIsFramed(id, s, t, i, true);
    hide Agree, Coherent, Frame, Name;
    forall j: nat | j < i
      ensures Content(id, t, j) == Content(id, s, j)
    {
      NamesDiffer(id, j, id, i);
    }
  }

  lemma UnchangedBelow(id: string, s: Snapshot, t: Snapshot, i: U32, n: nat)
    requires OnlyExtent(id, s, t, i) && t.flags == s.flags && t.objects == s.objects
    requires forall j: nat :: Flagged(s.flags, j) ==> j < n
    ensures ExtentsBelow(id, s, t, n)
  {
  }

  lemma NoneAbove(id: string, s: Snapshot, t: Snapshot, n: nat)
    requires ExtentsBelow(id, s, t, n)
    ensures forall j: nat :: Flagged(t.flags, j) ==> j < n
    ensures forall j: nat :: j < n ==> (Flagged(t.flags, j) <==> Flagged(s.flags, j))
    ensures forall j: nat :: j < n ==> Content(id, t, j) == Content(id, s, j)
  {
  }

  lemma BelowTwice(id: string, s: Snapshot, m: Snapshot, t: Snapshot, a: nat, b: nat)
    requires ExtentsBelow(id, s, m, a) && ExtentsBelow(id, m, t, b) && b <= a
    ensures ExtentsBelow(id, s, t, b)
  {
  }

  lemma BelowZeroes(id: string, s: Snapshot, t: Snapshot, n: nat)
    requires ExtentsBelow(id, s, t, n)
    ensures ZeroedFrom(id, s, t, n * CAPACITY)
  {
  }

  /** `t` is `s` resized to `n` bytes: what starts at or after `n` is gone, the extent holding byte `n - 1`
      exists, the flat array is zero from `n` on and the data ends at `n`. */
  ghost predicate Resized(id: string, s: Snapshot, t: Snapshot, n: nat)
  {
    && Frame(id, s, t)
    && (forall j: nat :: Flagged(t.flags, j) <==>
          ((Flagged(s.flags, j) && j * CAPACITY < n) || (n > 0 && j == (n - 1) / CAPACITY)))
    && (Coherent(id, s) ==> ZeroedFrom(id, s, t, n) && IsEnd(id, t, n))
  }

  lemma ResizedToNothing(id: string, s: Snapshot, t: Snapshot)
    requires ExtentsBelow(id, s, t, 0)
    ensures Resized(id, s, t, 0)
  {
  }

  lemma ResizedInLast(id: string, s: Snapshot, m: Snapshot, t: Snapshot, i: U32, n: nat, size: nat)
    requires ExtentsBelow(id, s, m, i + 1) && Agree(id, m) && (Coherent(id, s) ==> Coherent(id, m))
    requires OnlyExtent(id, m, t, i) && Flagged(t.flags, i)
    requires 0 < n <= CAPACITY && size == i * CAPACITY + n
    requires Coherent(id, m) ==> Content(id, t, i) == Truncate(Content(id, m, i), n)
    ensures Resized(id, s, t, size)
  {
    OnlyExtentIsFramed(id, m, t, i);
    FrameTransitive(id, s, m, t);
    assert (size - 1) / CAPACITY == i;
    forall j: nat
      ensures Flagged(t.flags, j) <==> ((Flagged(s.flags, j) && j * CAPACITY < size) || j == i)
    {
      assert j * CAPACITY < size <==> j <= i;
    }
    if Coherent(id, s) {
      BelowZeroes(id, s, m, i + 1);
      TruncationZeroes(id, m, t, i, n);
      TruncatedEnd(id, m, t, i, n);
      forall p: nat
        ensures Byte(id, t, p) == if p < size then Byte(id, s, p) else 0
      {
        assert Byte(id, t, p) == if p < size then Byte(id, m, p) else 0;
      }
    }
  }

  // ---------- what unlink and restart do ----------

  ghost predicate Uncached(id: string, s: Snapshot)
  {
    forall i: U32 :: ExtentId(id, i) !in s.cache
  }

  /** Every object that parses as an extent of the container is named as the container names it. */
  ghost predicate CleanNames(id: string, objects: Objects)
  {
    forall n <- objects :: ParseName(n).Some? && ParseName(n).value.container == id ==>
                             && Print(ParseName(n).value) == n
                             && ParseName(n).value.offset < MAX_EXTENTS
                             && ExtentSized(objects[n])
  }

  /** Every object that parses as an extent of the container has an index that the flags can hold. */
  ghost predicate BoundedNames(id: string, objects: Objects)
  {
    forall n <- objects :: ParseName(n).Some? && ParseName(n).value.container == id ==>
                             ParseName(n).value.offset < MAX_EXTENTS
  }

  lemma CleanNamesBounded(id: string, objects: Objects)
    requires CleanNames(id, objects)
    ensures BoundedNames(id, objects)
  {
  }

  /** What a container's operations write is cleanly named, so the names stay clean. */
  lemma CleanNamesKept(id: string, s: Snapshot, t: Snapshot)
    requires CleanNames(id, s.objects) && Frame(id, s, t) && Agree(id, t)
    ensures CleanNames(id, t.objects)
  {
    forall n <- t.objects | ParseName(n).Some? && ParseName(n).value.container == id
      ensures Print(ParseName(n).value) == n
      ensures ParseName(n).value.offset < MAX_EXTENTS && ExtentSized(t.objects[n])
    {
      assert SameObject(s.objects, t.objects, n) || Owns(id, n);
      OwnedIsNamed(id, n);
      assert Flagged(t.flags, ParseName(n).value.offset);
    }
  }

  /** The object of an erased extent is gone, that of any other is as it was. */
  ghost predicate ObjectsErased(id: string, s: Snapshot, t: Snapshot, erased: set<nat>)
  {
    forall i: U32 :: if i in erased then Name(id, i) !in t.objects
                     else SameObject(s.objects, t.objects, Name(id, i))
  }

  /** `t` is `s` with the extents below `n` erased: from the cache only, or from the backend too unless the
      removal is one of those that failed. */
  ghost predicate ErasedBelow(id: string, s: Snapshot, t: Snapshot, n: nat, fromBackend: bool, failed: set<nat>)
  {
    && Frame(id, s, t)
    && (forall i: U32 :: ExtentId(id, i) in t.cache ==> n <= i && ExtentId(id, i) in s.cache)
    && (forall j: nat :: Flagged(t.flags, j) <==> (Flagged(s.flags, j) && (fromBackend ==> n <= j)))
    && ObjectsErased(id, s, t, Erased(s.flags, n, fromBackend, failed))
  }

  ghost function Erased(flags: Flags, n: nat, fromBackend: bool, failed: set<nat>): set<nat>
  {
    set i: nat | i < n && Flagged(flags, i) && fromBackend && i !in failed
  }

  lemma NothingErased(id: string, s: Snapshot, fromBackend: bool)
    ensures ErasedBelow(id, s, s, 0, fromBackend, {})
  {
  }

  lemma ObjectsErasedMore(id: string, s: Snapshot, m: Snapshot, t: Snapshot, erased: set<nat>, n: U32, gone: bool)
    requires ObjectsErased(id, s, m, erased)
    requires t.objects == if gone then m.objects - {Name(id, n)} else m.objects
    ensures ObjectsErased(id, s, t, erased + (if gone then {n} else {}))
  {
    forall i: U32
      ensures if i in erased || (gone && i == n) then Name(id, i) !in t.objects
              else SameObject(s.objects, t.objects, Name(id, i))
    {
      NamesDiffer(id, i, id, n);
    }
  }

  lemma ErasedGrows(flags: Flags, n: nat, fromBackend: bool, failed: set<nat>, ok: bool)
    requires forall i <- failed :: i < n
    ensures Erased(flags, n + 1, fromBackend, if ok then failed else failed + {n})
         == Erased(flags, n, fromBackend, failed) + (if Flagged(flags, n) && fromBackend && ok then {n} else {})
  {
  }

  lemma ErasedOneMore(id: string, s: Snapshot, m: Snapshot, t: Snapshot, n: U32, fromBackend: bool,
                      failed: set<nat>, ok: bool)
    requires ErasedBelow(id, s, m, n, fromBackend, failed)
    requires forall i <- failed :: i < n
    requires t.cache == m.cache - {ExtentId(id, n)}
    requires t.objects == if Flagged(m.flags, n) && fromBackend && ok then m.objects - {Name(id, n)} else m.objects
    requires forall j: nat :: Flagged(t.flags, j) <==> (Flagged(m.flags, j) && (fromBackend ==> n != j))
    ensures ErasedBelow(id, s, t, n + 1, fromBackend, if ok then failed else failed + {n})
  {
    hide Frame, ObjectsErased, Erased;
    var gone := Flagged(m.flags, n) && fromBackend && ok;
    ErasedIsFramed(id, m, t, n, gone);
    FrameTransitive(id, s, m, t);
    ObjectsErasedMore(id, s, m, t, Erased(s.flags, n, fromBackend, failed), n, gone);
    ErasedGrows(s.flags, n, fromBackend, failed, ok);
  }

  lemma ErasedIsFramed(id: string, m: Snapshot, t: Snapshot, n: U32, gone: bool)
    requires t.cache == m.cache - {ExtentId(id, n)}
    requires t.objects == if gone then m.objects - {Name(id, n)} else m.objects
    ensures Frame(id, m, t)
  {
    NameIsOwned(id, n);
  }

  /** An extent is flagged exactly when one of the names parses as it. */
  ghost predicate FlagsListed(id: string, flags: Flags, names: set<string>)
  {
    forall j: U32 :: Flagged(flags, j) <==> exists n <- names :: ParseName(n) == Some(ExtentId(id, j))
  }

  lemma OneMoreListed(id: string, f: Flags, g: Flags, names: set<string>, name: string)
    requires FlagsListed(id, f, names)
    requires var e := ParseName(name);
             forall j: nat :: Flagged(g, j) <==>
               (Flagged(f, j) || (e.Some? && e.value.container == id && e.value.offset == j))
    ensures FlagsListed(id, g, names + {name})
  {
  }

  /** Every object that parses as an extent of the container stands for one that is there, and these are as large as
      extents are. */
  ghost predicate Restorable(id: string, objects: Objects)
  {
    && (forall n <- objects :: ParseName(n).Some? && ParseName(n).value.container == id ==>
                                 Name(id, ParseName(n).value.offset) in objects)
    && (forall i: U32 :: Name(id, i) in objects ==> ExtentSized(objects[Name(id, i)]))
  }

  /** Rebuilding the flags finds exactly the stored extents if and only if the namespace is restorable. */
  lemma ListedFlagsAgree(id: string, s: Snapshot)
    requires FlagsListed(id, s.flags, s.objects.Keys) && Uncached(id, s)
    ensures Agree(id, s) <==> Restorable(id, s.objects)
    ensures Coherent(id, s)
  {
    forall i: U32
      ensures Name(id, i) in s.objects ==> Flagged(s.flags, i)
    {
      ParseOfPrint(ExtentId(id, i));
    }
    hide Name;
    if Agree(id, s) {
      forall n <- s.objects | ParseName(n).Some? && ParseName(n).value.container == id
        ensures Name(id, ParseName(n).value.offset) in s.objects
      {
        assert ParseName(n) == Some(ExtentId(id, ParseName(n).value.offset));
      }
    }
  }

  lemma CleanIsRestorable(id: string, objects: Objects)
    requires CleanNames(id, objects)
    ensures Restorable(id, objects)
  {
    forall i: U32
      ensures ParseName(Name(id, i)) == Some(ExtentId(id, i))
    {
      ParseOfPrint(ExtentId(id, i));
    }
  }

  /** The data ends with the last extent. */
  lemma LastExtentEnds(id: string, s: Snapshot, i: nat)
    requires Agree(id, s) && Flagged(s.flags, i)
    requires forall j: nat :: j > i ==> !Flagged(s.flags, j)
    ensures IsEnd(id, s, i * CAPACITY + |s.objects[Name(id, i)]|)
  {
  }

  /** The same backend and the same flags give the same file: restart changes no byte and no end. */
  lemma SameFile(id: string, s: Snapshot, t: Snapshot)
    requires Agree(id, s) && Agree(id, t) && t.objects == s.objects
    ensures forall j: nat :: Flagged(t.flags, j) <==> Flagged(s.flags, j)
    ensures forall p: nat :: Byte(id, t, p) == Byte(id, s, p)
    ensures forall e: nat :: IsEnd(id, t, e) <==> IsEnd(id, s, e)
  {
  }
}
