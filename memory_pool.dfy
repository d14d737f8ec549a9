/**
 * The allocation-tracking table of Execute.c:14-22, 74-148 and 312-331.
 *
 * `MemoryPool` is the C struct: two parallel arrays `blocks` and `sizes`
 * whose first `count` slots record the live tracked allocations, the array
 * length `capacity` and the running sum `total_allocated`. `Allocator`
 * holds the global `memory_pool` pointer and the C heap it allocates from.
 * Pointers are abstract ids, with 0 as NULL. Whether `malloc` or `realloc`
 * succeeds, and which address `malloc` returns, are parameters.
 */
module Allocation {
  import opened Wrappers

  type Ptr = nat

  const NULL: Ptr := 0

  /** The capacity `smart_malloc` asks for when it creates the pool. */
  const INITIAL_CAPACITY: nat := 100

  newtype byte = x: int | 0 <= x < 256

  function Sum(s: seq<nat>): nat
    decreases |s|
  {
    if s == [] then 0 else Sum(s[..|s| - 1]) + s[|s| - 1]
  }

  lemma SumAppend(s: seq<nat>, x: nat)
    ensures Sum(s + [x]) == Sum(s) + x
  {
    assert (s + [x])[..|s|] == s;
  }

  /** Dropping entry `i` from a list of sizes lowers the sum by exactly that entry. */
  lemma {:induction false} SumRemoveAt(s: seq<nat>, i: nat)
    requires i < |s|
    ensures Sum(RemoveAt(s, i)) + s[i] == Sum(s)
    decreases |s|
  {
    var n := |s| - 1;
    if i < n {
      SumRemoveAt(s[..n], i);
      assert RemoveAt(s, i) == RemoveAt(s[..n], i) + [s[n]];
      SumAppend(RemoveAt(s[..n], i), s[n]);
    } else {
      assert RemoveAt(s, i) == s[..n];
    }
  }

  function Zeros(n: nat): (r: seq<byte>)
    ensures |r| == n && forall i :: 0 <= i < n ==> r[i] == 0
  {
    seq(n, _ => 0)
  }

  function RemoveAt<T>(s: seq<T>, i: nat): (r: seq<T>)
    requires i < |s|
    ensures |r| == |s| - 1
    ensures forall k :: 0 <= k < i ==> r[k] == s[k]
    ensures forall k :: i <= k < |r| ==> r[k] == s[k + 1]
  {
    s[..i] + s[i + 1..]
  }

  /** The position of the first entry equal to `p`. */
  function FirstIndex(s: seq<Ptr>, p: Ptr): (r: Option<nat>)
    ensures r.None? <==> p !in s
    ensures r.Some? ==> r.value < |s| && s[r.value] == p && p !in s[..r.value]
  {
    if s == [] then None
    else if s[0] == p then Some(0)
    else
      match FirstIndex(s[1..], p)
      case None => None
      case Some(i) => (assert s[1..][..i] == s[1..i + 1]; Some(i + 1))
  }

  lemma {:induction false} FirstIndexAt(s: seq<Ptr>, p: Ptr, i: nat)
    requires i < |s| && s[i] == p && p !in s[..i]
    ensures FirstIndex(s, p) == Some(i)
  {
    if i > 0 {
      assert s[1..][..i - 1] == s[1..i];
      FirstIndexAt(s[1..], p, i - 1);
    }
  }

  /** Freeing a block right after recording it gives back the table it was recorded in. */
  lemma RecordThenRelease(bs: seq<Ptr>, ss: seq<nat>, p: Ptr, size: nat)
    requires p !in bs
    ensures FirstIndex(bs + [p], p) == Some(|bs|)
    ensures RemoveAt(bs + [p], |bs|) == bs && RemoveAt(ss + [size], |ss|) == ss
    ensures Sum(ss + [size]) - size == Sum(ss)
  {
    assert (bs + [p])[..|bs|] == bs;
    FirstIndexAt(bs + [p], p, |bs|);
    RemoveLast(bs, p);
    RemoveLast(ss, size);
    SumAppend(ss, size);
  }

  lemma RemoveLast<T>(s: seq<T>, x: T)
    ensures RemoveAt(s + [x], |s|) == s
  {
    assert (s + [x])[..|s|] == s;
  }

  class MemoryPool {
    var blocks: array<Ptr>
    var sizes: array<nat>
    var count: nat
    var capacity: nat
    var total: nat

    /** `count <= capacity`, both arrays have `capacity` slots, and `total` is the sum of the recorded sizes. */
    ghost predicate Valid()
      reads this, blocks, sizes
    {
      && blocks != sizes
      && blocks.Length == capacity && sizes.Length == capacity
      && count <= capacity
      && total == Sum(sizes[..count])
    }

    /** The recorded pointers, `blocks[0..count)`. */
    function Blocks(): seq<Ptr>
      reads this, blocks
      requires count <= blocks.Length
    {
      blocks[..count]
    }

    /** The recorded sizes, `sizes[0..count)`. */
    function Sizes(): seq<nat>
      reads this, sizes
      requires count <= sizes.Length
    {
      sizes[..count]
    }

    /** The pool `init_memory_pool` sets up once all three `malloc`s succeed: zeroed arrays, nothing recorded. */
    constructor (initialCapacity: nat)
      ensures Valid() && fresh(blocks) && fresh(sizes)
      ensures count == 0 && capacity == initialCapacity && total == 0
      ensures forall i :: 0 <= i < initialCapacity ==> blocks[i] == NULL && sizes[i] == 0
    {
      blocks := new Ptr[initialCapacity](_ => NULL);
      sizes := new nat[initialCapacity](_ => 0);
      count := 0;
      capacity := initialCapacity;
      total := 0;
    }

    /** Both `realloc`s succeeded (Execute.c:108-116): larger arrays, same recorded entries. */
    method Grow(newCapacity: nat)
      requires Valid() && capacity <= newCapacity
      modifies this
      ensures Valid() && fresh(blocks) && fresh(sizes)
      ensures capacity == newCapacity && count == old(count) && total == old(total)
      ensures Blocks() == old(Blocks()) && Sizes() == old(Sizes())
    {
      var newBlocks := new Ptr[newCapacity];
      var newSizes := new nat[newCapacity];
      forall i | 0 <= i < blocks.Length {
        newBlocks[i] := blocks[i];
      }
      forall i | 0 <= i < sizes.Length {
        newSizes[i] := sizes[i];
      }
      assert newBlocks[..count] == blocks[..count];
      assert newSizes[..count] == sizes[..count];
      blocks, sizes, capacity := newBlocks, newSizes, newCapacity;
      assert sizes[..count] == old(sizes[..count]);
    }

    /** Record an allocation in slot `count` (Execute.c:120-125). */
    method Record(p: Ptr, size: nat)
      requires Valid() && count < capacity
      modifies this, blocks, sizes
      ensures Valid() && blocks == old(blocks) && sizes == old(sizes) && capacity == old(capacity)
      ensures Blocks() == old(Blocks()) + [p] && Sizes() == old(Sizes()) + [size]
      ensures total == old(total) + size
    {
      blocks[count] := p;
      sizes[count] := size;
      assert sizes[..count + 1] == old(Sizes()) + [size];
      assert blocks[..count + 1] == old(Blocks()) + [p];
      SumAppend(old(Sizes()), size);
      count := count + 1;
      total := total + size;
    }

    /** Drop entry `i`: subtract its size, shift the later entries left, decrement `count` (Execute.c:136-142). */
    method RemoveEntry(i: nat)
      requires Valid() && i < count
      modifies this, blocks, sizes
      ensures Valid() && blocks == old(blocks) && sizes == old(sizes) && capacity == old(capacity)
      ensures Blocks() == RemoveAt(old(Blocks()), i) && Sizes() == RemoveAt(old(Sizes()), i)
      ensures total == old(total) - old(sizes[i])
    {
      SumRemoveAt(Sizes(), i);
      total := total - sizes[i];
      ShiftLeft(i);
      count := count - 1;
    }

    /** The search loop of `smart_free` (Execute.c:134-135): the first slot holding `p`. */
    method Find(p: Ptr) returns (r: Option<nat>)
      requires Valid()
      ensures r == FirstIndex(Blocks(), p)
    {
      var i := 0;
      while i < count
        invariant 0 <= i <= count
        invariant p !in blocks[..i]
      {
        if blocks[i] == p {
          FirstIndexAt(Blocks(), p, i);
          return Some(i);
        }
        assert blocks[..i + 1] == blocks[..i] + [blocks[i]];
        i := i + 1;
      }
      assert blocks[..count] == Blocks();
      return None;
    }

    /** The inner loop of `smart_free`: `blocks[j] = blocks[j + 1]; sizes[j] = sizes[j + 1]` for `i <= j < count - 1`. */
    method ShiftLeft(i: nat)
      requires blocks != sizes && blocks.Length == sizes.Length && i < count <= blocks.Length
      modifies blocks, sizes
      ensures blocks[..count - 1] == RemoveAt(old(blocks[..count]), i)
      ensures sizes[..count - 1] == RemoveAt(old(sizes[..count]), i)
    {
      var j := i;
      while j < count - 1
        invariant i <= j <= count - 1
        invariant Shifted(blocks[..], old(blocks[..]), i, j)
        invariant Shifted(sizes[..], old(sizes[..]), i, j)
      {
        blocks[j] := blocks[j + 1];
        sizes[j] := sizes[j + 1];
        j := j + 1;
      }
      ShiftedRemoves(blocks[..], old(blocks[..]), i, count);
      ShiftedRemoves(sizes[..], old(sizes[..]), i, count);
    }
  }

  /** `a` is `b` with positions `i..j` taken from one place further right. */
  ghost predicate Shifted<T>(a: seq<T>, b: seq<T>, i: nat, j: nat)
  {
    && |a| == |b| && i <= j < |b|
    && (forall k :: 0 <= k < i ==> a[k] == b[k])
    && (forall k :: i <= k < j ==> a[k] == b[k + 1])
    && (forall k :: j <= k < |b| ==> a[k] == b[k])
  }

  lemma ShiftedRemoves<T>(a: seq<T>, b: seq<T>, i: nat, count: nat)
    requires i < count <= |b| && Shifted(a, b, i, count - 1)
    ensures a[..count - 1] == RemoveAt(b[..count], i)
  {
  }

  /** `init_memory_pool(initialCapacity)`; `allocOk` says whether its three `malloc` calls succeed. */
  method InitMemoryPool(initialCapacity: nat, allocOk: bool) returns (p: MemoryPool?)
    ensures (p != null) == allocOk
    ensures p != null ==> fresh(p) && fresh(p.blocks) && fresh(p.sizes) && p.Valid()
    ensures p != null ==> p.count == 0 && p.capacity == initialCapacity && p.total == 0
  {
    if !allocOk {
      return null;
    }
    p := new MemoryPool(initialCapacity);
  }

  /** Every recorded block is a distinct live allocation whose recorded size is its length. */
  ghost predicate TracksLive(bs: seq<Ptr>, ss: seq<nat>, heap: map<Ptr, seq<byte>>)
  {
    && |bs| == |ss|
    && (forall i :: 0 <= i < |bs| ==> bs[i] != NULL && bs[i] in heap && |heap[bs[i]]| == ss[i])
    && (forall i, j :: 0 <= i < j < |bs| ==> bs[i] != bs[j])
  }

  /** What `/memory-stats` reports (Execute.c:383-386). */
  datatype Stats = Stats(totalAllocated: nat, activeBlocks: nat, poolCapacity: nat)

  class Allocator {
    /** The global `memory_pool`. */
    var pool: MemoryPool?
    /** The live C allocations and their contents. */
    var heap: map<Ptr, seq<byte>>
    ghost var Repr: set<object>

    /** The pool, once created (with 100 slots, doubled since), tracks distinct live blocks. */
    ghost predicate Valid()
      reads this, Repr
    {
      && this in Repr
      && NULL !in heap
      && (pool != null ==>
            && pool in Repr && pool.blocks in Repr && pool.sizes in Repr
            && pool.Valid() && pool.capacity > 0
            && TracksLive(pool.Blocks(), pool.Sizes(), heap))
    }

    /** The recorded pointers, none before the pool exists. */
    ghost function Tracked(): seq<Ptr>
      reads this, Repr
      requires Valid()
    {
      if pool == null then [] else pool.Blocks()
    }

    ghost function TrackedSizes(): seq<nat>
      reads this, Repr
      requires Valid()
    {
      if pool == null then [] else pool.Sizes()
    }

    ghost function Total(): nat
      reads this, Repr
      requires Valid()
    {
      if pool == null then 0 else pool.total
    }

    ghost function Capacity(): nat
      reads this, Repr
      requires Valid()
    {
      if pool == null then 0 else pool.capacity
    }

    constructor ()
      ensures Valid() && fresh(Repr)
      ensures pool == null && heap == map[]
    {
      pool := null;
      heap := map[];
      Repr := {this};
    }

    /** `memory_pool ? ... : 0` for the three reported numbers. */
    function MemoryStats(): (r: Stats)
      reads this, Repr
      requires Valid()
      ensures r.totalAllocated == Sum(TrackedSizes())
      ensures r.activeBlocks == |Tracked()| <= r.poolCapacity
      ensures r.poolCapacity == Capacity()
      ensures pool == null ==> r == Stats(0, 0, 0)
    {
      if pool == null then Stats(0, 0, 0) else Stats(pool.total, pool.count, pool.capacity)
    }

    /**
     * `smart_malloc(size)`. `initOk` says whether creating the pool would
     * succeed, `got` is what `malloc(size)` returns (`None` for NULL), and
     * `growOk` whether both `realloc`s of a full table succeed.
     */
    method SmartMalloc(size: nat, initOk: bool, got: Option<Ptr>, growOk: bool) returns (p: Ptr)
      requires Valid()
      requires got.Some? ==> got.value != NULL && got.value !in heap
      modifies Repr
      ensures Valid() && fresh(Repr - old(Repr))
      ensures (pool != null) == (old(pool) != null || initOk)
      ensures p == (if pool != null && got.Some? then got.value else NULL)
      ensures heap == if p == NULL then old(heap) else old(heap)[p := Zeros(size)]
      ensures p == NULL ==> Tracked() == old(Tracked()) && TrackedSizes() == old(TrackedSizes()) && Total() == old(Total())
      ensures p == NULL ==> Capacity() == (if old(pool) == null && initOk then INITIAL_CAPACITY else old(Capacity()))
      ensures p != NULL ==>
                var cap := if old(pool) == null then INITIAL_CAPACITY else old(Capacity());
                Capacity() == (if |old(Tracked())| >= cap && growOk then 2 * cap else cap)
      ensures p != NULL ==>
                var cap := if old(pool) == null then INITIAL_CAPACITY else old(Capacity());
                if |old(Tracked())| >= cap && !growOk then
                  Tracked() == old(Tracked()) && TrackedSizes() == old(TrackedSizes()) && Total() == old(Total())
                else
                  Tracked() == old(Tracked()) + [p] && TrackedSizes() == old(TrackedSizes()) + [size] && Total() == old(Total()) + size
    {
      EnsurePool(initOk);
      if pool == null || got.None? {
        return NULL;
      }
      p := got.value;
      Track(p, size, growOk);
    }

    /** Execute.c:99-102: the first `smart_malloc` creates the pool with 100 slots. */
    method EnsurePool(initOk: bool)
      requires Valid()
      modifies this
      ensures Valid() && fresh(Repr - old(Repr)) && heap == old(heap)
      ensures (pool != null) == (old(pool) != null || initOk)
      ensures Tracked() == old(Tracked()) && TrackedSizes() == old(TrackedSizes()) && Total() == old(Total())
      ensures Capacity() == if old(pool) == null && initOk then INITIAL_CAPACITY else old(Capacity())
    {
      if pool == null {
        var created := InitMemoryPool(INITIAL_CAPACITY, initOk);
        if created != null {
          pool := created;
          Repr := Repr + {created, created.blocks, created.sizes};
          assert created.Blocks() == [] && created.Sizes() == [];
        }
      }
    }

    /** Execute.c:104-127 once `malloc` has returned `p`: grow a full table, record `p` if there is room, zero-fill. */
    method Track(p: Ptr, size: nat, growOk: bool)
      requires Valid() && pool != null && p != NULL && p !in heap
      modifies Repr
      ensures Valid() && fresh(Repr - old(Repr)) && pool == old(pool)
      ensures heap == old(heap)[p := Zeros(size)]
      ensures pool.capacity == if old(pool.count) >= old(pool.capacity) && growOk then 2 * old(pool.capacity) else old(pool.capacity)
      ensures if old(pool.count) >= old(pool.capacity) && !growOk then
                pool.Blocks() == old(pool.Blocks()) && pool.Sizes() == old(pool.Sizes()) && pool.total == old(pool.total)
              else
                pool.Blocks() == old(pool.Blocks()) + [p] && pool.Sizes() == old(pool.Sizes()) + [size] && pool.total == old(pool.total) + size
    {
      TracksLiveAllocate(pool.Blocks(), pool.Sizes(), heap, p, size);
      heap := heap[p := Zeros(size)];
      ghost var bs, ss := pool.Blocks(), pool.Sizes();
      if pool.count >= pool.capacity {
        var newCapacity := pool.capacity * 2;
        if growOk {
          pool.Grow(newCapacity);
          Repr := Repr + {pool.blocks, pool.sizes};
        }
      }
      assert pool.Blocks() == bs && pool.Sizes() == ss && pool.total == old(pool.total);
      if pool.count < pool.capacity {
        pool.Record(p, size);
      }
    }

    /**
     * `smart_free(ptr)`: drops the first recorded entry equal to `p`, then
     * frees `p`. With no pool it returns before freeing.
     */
    method SmartFree(p: Ptr)
      requires Valid()
      requires p == NULL || pool == null || p in heap
      modifies Repr
      ensures Valid() && Repr == old(Repr) && pool == old(pool)
      ensures Capacity() == old(Capacity())
      ensures heap == if p == NULL || pool == null then old(heap) else old(heap) - {p}
      ensures p == NULL || FirstIndex(old(Tracked()), p).None? ==>
                Tracked() == old(Tracked()) && TrackedSizes() == old(TrackedSizes()) && Total() == old(Total())
      ensures p != NULL && FirstIndex(old(Tracked()), p).Some? ==>
                var i := FirstIndex(old(Tracked()), p).value;
                && Tracked() == RemoveAt(old(Tracked()), i) && TrackedSizes() == RemoveAt(old(TrackedSizes()), i)
                && Total() == old(Total()) - old(TrackedSizes())[i]
    {
      if p == NULL || pool == null {
        return;
      }
      var found := pool.Find(p);
      if found.Some? {
        // the entry is dropped where the search loop breaks
        TracksLiveRelease(pool.Blocks(), pool.Sizes(), heap, found.value);
        pool.RemoveEntry(found.value);
      } else {
        TracksLiveFreeUntracked(pool.Blocks(), pool.Sizes(), heap, p);
      }
      heap := heap - {p};
    }

    /** `cleanup_memory_pool()`: frees every recorded block and drops the pool. */
    method CleanupMemoryPool()
      requires Valid()
      modifies Repr
      ensures Valid() && Repr == old(Repr) && pool == null
      ensures heap == old(heap) - (set q | q in old(Tracked()))
    {
      if pool == null {
        return;
      }
      var i := 0;
      while i < pool.count
        modifies this
        invariant pool == old(pool) && Repr == old(Repr) && 0 <= i <= pool.count
        invariant heap == old(heap) - (set k | 0 <= k < i :: pool.blocks[k])
      {
        if pool.blocks[i] != NULL {
          heap := heap - {pool.blocks[i]};
        }
        i := i + 1;
      }
      assert (set k | 0 <= k < pool.count :: pool.blocks[k]) == (set q | q in pool.Blocks());
      pool := null;
    }
  }

  lemma TracksLiveAllocate(bs: seq<Ptr>, ss: seq<nat>, heap: map<Ptr, seq<byte>>, p: Ptr, size: nat)
    requires TracksLive(bs, ss, heap) && p != NULL && p !in heap
    ensures TracksLive(bs, ss, heap[p := Zeros(size)])
    ensures TracksLive(bs + [p], ss + [size], heap[p := Zeros(size)])
  {
  }

  lemma TracksLiveRelease(bs: seq<Ptr>, ss: seq<nat>, heap: map<Ptr, seq<byte>>, i: nat)
    requires TracksLive(bs, ss, heap) && i < |bs|
    ensures TracksLive(RemoveAt(bs, i), RemoveAt(ss, i), heap - {bs[i]})
  {
  }

  lemma TracksLiveFreeUntracked(bs: seq<Ptr>, ss: seq<nat>, heap: map<Ptr, seq<byte>>, p: Ptr)
    requires TracksLive(bs, ss, heap) && p !in bs
    ensures TracksLive(bs, ss, heap - {p})
  {
  }
}
