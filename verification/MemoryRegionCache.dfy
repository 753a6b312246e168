/** MemoryRegionCache: a bounded cache of released memory regions over an ObjectQueue. */
module MemoryRegionCache {
  import opened Words
  import opened ObjectQueue

  /** A region of a chunk; chunk number 0 is the null pointer. */
  datatype Entry = Entry(chunk: nat, handle: int)

  /** What became of an entry that left the queue. */
  datatype Use = Allocated(entry: Entry) | Freed(entry: Entry)

  ghost function Entries(uses: seq<Use>): (s: seq<Entry>)
    ensures |s| == |uses|
  {
    seq(|uses|, i requires 0 <= i < |uses| => uses[i].entry)
  }

  ghost function FreedAll(entries: seq<Entry>): (s: seq<Use>)
    ensures |s| == |entries|
  {
    seq(|entries|, i requires 0 <= i < |entries| => Freed(entries[i]))
  }

  ghost function CountAllocated(uses: seq<Use>): nat {
    if uses == [] then 0 else CountAllocated(uses[..|uses| - 1]) + if uses[|uses| - 1].Allocated? then 1 else 0
  }

  ghost function CountFreed(uses: seq<Use>): nat {
    if uses == [] then 0 else CountFreed(uses[..|uses| - 1]) + if uses[|uses| - 1].Freed? then 1 else 0
  }

  lemma {:induction false} EveryUseCounted(uses: seq<Use>)
    ensures CountAllocated(uses) + CountFreed(uses) == |uses|
  {
    if uses != [] {
      EveryUseCounted(uses[..|uses| - 1]);
    }
  }

  /** The entries used so far and the queued ones are the accepted ones in order, and none is null. */
  ghost predicate Accounted(accepted: seq<Entry>, uses: seq<Use>, queued: seq<Entry>) {
    && accepted == Entries(uses) + queued
    && forall i :: 0 <= i < |accepted| ==> accepted[i].chunk != 0
  }

  lemma UseOne(accepted: seq<Entry>, uses: seq<Use>, queued: seq<Entry>, rest: seq<Entry>, use: Use)
    requires Accounted(accepted, uses, queued) && queued == [use.entry] + rest
    ensures Accounted(accepted, uses + [use], rest) && use.entry.chunk != 0
    ensures CountAllocated(uses + [use]) == CountAllocated(uses) + if use.Allocated? then 1 else 0
  {
    assert accepted[|uses|] == use.entry;
    assert (uses + [use])[..|uses|] == uses;
    assert Entries(uses + [use]) == Entries(uses) + [use.entry];
  }

  lemma KeepsPrefix(uses: seq<Use>, use: Use, mark: nat)
    requires mark <= |uses|
    ensures (uses + [use])[..mark] == uses[..mark]
  {
  }

  lemma FreedAllStep(q: seq<Entry>, n: nat)
    requires n < |q|
    ensures FreedAll(q[..n + 1]) == FreedAll(q[..n]) + [Freed(q[n])]
  {
  }

  class MemoryRegionCache {
    const size: int
    const queue: ObjectQueue<Entry>
    var allocations: int
    /** Every entry that add accepted, in order, and every use of an entry, in order. */
    ghost var accepted: seq<Entry>
    ghost var uses: seq<Use>
    /** How many uses there were at the last trim: allocations counts since then. */
    ghost var mark: nat

    /** Entries are used in the order they were accepted, and what is not used yet is queued: nothing is lost,
        duplicated or reordered. */
    ghost predicate Valid()
      reads this, queue, queue.Repr
    {
      && queue.Valid() && queue.empty == Entry(0, 0)
      && Accounted(accepted, uses, queue.Contents())
      && |queue.Contents()| <= Max(0, size)
      && mark <= |uses| && allocations == CountAllocated(uses) - CountAllocated(uses[..mark])
    }

    constructor (size: int)
      ensures Valid() && fresh(queue) && fresh(queue.Repr) && this.size == size && accepted == [] && uses == []
    {
      this.size := size;
      queue := new ObjectQueue(Entry(0, 0));
      allocations, accepted, uses, mark := 0, [], [], 0;
    }

    method Add(chunk: nat, handle: int) returns (done: bool)
      requires Valid() && chunk != 0
      modifies this`accepted, queue, queue.Repr
      ensures Valid() && fresh(queue.Repr - old(queue.Repr))
      ensures done <==> |old(queue.Contents())| < size
      ensures accepted == old(accepted) + if done then [Entry(chunk, handle)] else []
    {
      if queue.size >= size {
        return false;
      }
      var n := queue.Add(Entry(chunk, handle));
      accepted := accepted + [Entry(chunk, handle)];
      done := true;
    }

    /** Hands out the entry that has been queued longest; None when there is none. */
    method Allocate() returns (entry: Option<Entry>)
      requires Valid()
      modifies this`uses, this`allocations, queue
      ensures Valid() && queue.Repr == old(queue.Repr)
      ensures old(queue.Contents()) == [] ==> entry == None && uses == old(uses) && allocations == old(allocations)
      ensures old(queue.Contents()) != [] ==> entry == Some(old(queue.Contents())[0])
      ensures entry.Some? ==> uses == old(uses) + [Allocated(entry.value)] && allocations == old(allocations) + 1
    {
      ghost var q := queue.Contents();
      var e := queue.Take();
      if q != [] {
        UseOne(accepted, uses, q, queue.Contents(), Allocated(e));
      }
      if e.chunk == 0 {
        return None;
      }
      KeepsPrefix(uses, Allocated(e), mark);
      allocations := allocations + 1;
      uses := uses + [Allocated(e)];
      entry := Some(e);
    }

    /** Takes one entry and releases it; no when there is none. */
    method FreeEntry() returns (done: bool)
      requires Valid()
      modifies this`uses, queue
      ensures Valid() && queue.Repr == old(queue.Repr)
      ensures done <==> old(queue.Contents()) != []
      ensures done ==> uses == old(uses) + [Freed(old(queue.Contents())[0])]
      ensures done ==> queue.Contents() == old(queue.Contents())[1..]
      ensures !done ==> uses == old(uses) && queue.Contents() == old(queue.Contents())
    {
      ghost var q := queue.Contents();
      var entry := queue.Take();
      if q != [] {
        UseOne(accepted, uses, q, queue.Contents(), Freed(entry));
      }
      done := entry.chunk != 0;
      if done {
        KeepsPrefix(uses, Freed(entry), mark);
        uses := uses + [Freed(entry)];
      }
    }

    /** Releases up to max entries, oldest first. */
    method Free(max: int) returns (numFreed: int)
      requires Valid()
      modifies this`uses, queue
      ensures Valid() && queue.Repr == old(queue.Repr)
      ensures numFreed == Min(|old(queue.Contents())|, Max(0, max))
      ensures uses == old(uses) + FreedAll(old(queue.Contents())[..numFreed])
      ensures queue.Contents() == old(queue.Contents())[numFreed..]
    {
      ghost var q := queue.Contents();
      numFreed := 0;
      while numFreed < max
        invariant Valid() && queue.Repr == old(queue.Repr) && 0 <= numFreed <= |q|
        invariant numFreed <= Max(0, max)
        invariant queue.Contents() == q[numFreed..]
        invariant uses == old(uses) + FreedAll(q[..numFreed])
      {
        var done := FreeEntry();
        if !done {
          break;
        }
        FreedAllStep(q, numFreed);
        numFreed := numFreed + 1;
      }
    }

    /** Releases what the allocations since the last trim show to be surplus. */
    method Trim()
      requires Valid()
      modifies this`uses, this`allocations, this`mark, queue
      ensures Valid() && queue.Repr == old(queue.Repr) && allocations == 0
      ensures var n := Min(|old(queue.Contents())|, Max(0, size - old(allocations)));
        uses == old(uses) + FreedAll(old(queue.Contents())[..n]) && queue.Contents() == old(queue.Contents())[n..]
    {
      var free := size - allocations;
      allocations := 0;
      mark := |uses|;
      assert uses[..mark] == uses;
      if free > 0 {
        var n := Free(free);
      }
    }

    /** Over any run: accepted entries are the allocated ones, the freed ones and the queued ones. */
    lemma Conservation()
      requires Valid()
      ensures |accepted| == CountAllocated(uses) + CountFreed(uses) + |queue.Contents()|
    {
      EveryUseCounted(uses);
    }
  }

  // ----- Which cache serves a run -----

  /** The floor of the base-two logarithm, by halving. */
  method Log2(val: int) returns (res: nat)
    requires val <= INT_MAX
    ensures val < 1 ==> res == 0
    ensures val >= 1 ==> Pow2(res) <= val < Pow2(res + 1)
  {
    var v := val;
    res := 0;
    while v > 1
      invariant val >= 1 ==> v >= 1 && v * Pow2(res) <= val < (v + 1) * Pow2(res)
      invariant val < 1 ==> v == val && res == 0
      decreases v
    {
      HalveBounds(val, v, Pow2(res));
      v := v / 2;
      res := res + 1;
    }
  }

  lemma HalveBounds(val: int, v: int, p: nat)
    requires v > 1 && v * p <= val < (v + 1) * p
    ensures (v / 2) * (2 * p) <= val < (v / 2 + 1) * (2 * p)
  {
    var h := v / 2;
    if v == 2 * h {
      assert v * p == h * (2 * p);
      assert (v + 1) * p == h * (2 * p) + p;
      assert (h + 1) * (2 * p) == h * (2 * p) + 2 * p;
    } else {
      assert v == 2 * h + 1;
      assert v * p == h * (2 * p) + p;
      assert (v + 1) * p == (h + 1) * (2 * p);
    }
  }

  /** The caches made for runs of 1, 2, 4, ... pages: a run of 2^k pages has one exactly when it is not larger
      than the chunk and the configured maximum, except that a single page always has one. */
  method NormalCachesSize(chunkSize: int, maxCachedBufferCapacity: int, pageSize: int) returns (n: int)
    requires 0 < pageSize <= chunkSize <= INT_MAX && maxCachedBufferCapacity > 0
    ensures forall k: nat :: k < n <==> pageSize * Pow2(k) <= Min(chunkSize, maxCachedBufferCapacity) || k == 0
  {
    var max := Min(chunkSize, maxCachedBufferCapacity);
    var log := Log2(max / pageSize);
    n := Max(1, log + 1);
    forall k: nat
      ensures k < n <==> pageSize * Pow2(k) <= max || k == 0
    {
      CachedIff(max, pageSize, n, k);
    }
  }

  lemma CachedIff(max: nat, pageSize: nat, n: int, k: nat)
    requires pageSize > 0 && n >= 1
    requires max / pageSize >= 1 ==> Pow2(n - 1) <= max / pageSize < Pow2(n)
    requires max / pageSize == 0 ==> n == 1
    ensures k < n <==> pageSize * Pow2(k) <= max || k == 0
  {
    WholePages(max, pageSize, Pow2(k));
    if k < n {
      Pow2Monotone(k, n - 1);
    } else {
      Pow2Monotone(n, k);
    }
  }

  lemma WholePages(max: nat, pageSize: nat, p: nat)
    requires pageSize > 0
    ensures pageSize * p <= max <==> p <= max / pageSize
  {
    var q, r := max / pageSize, max % pageSize;
    assert max == pageSize * q + r;
    if p <= q {
      assert pageSize * q == pageSize * p + pageSize * (q - p);
    } else {
      assert pageSize * p == pageSize * q + pageSize + pageSize * (p - q - 1);
    }
  }
}
