/** PoolChunkList and the part of PoolArena that owns the lists: chunks migrate between doubly linked lists, one
    list for each band of usage. */
module PoolChunkList {
  import opened Sequences
  import opened Words
  import Buddy = PoolChunk

  /** A chunk as the lists see it: its free bytes, its largest run that can be allocated, the percentage usage()
      reports, and its links. What happens here to the largest run is what LargestServes, LargestIsFree,
      LargestOfEmpty and LargestMonotone of PoolChunk prove of its tree. */
  class Chunk {
    const chunkSize: nat
    const pageSize: nat
    var freeBytes: nat
    var largest: nat
    var usage: nat
    var parent: PoolChunkList?
    var prev: Chunk?
    var next: Chunk?

    constructor (chunkSize: nat, pageSize: nat)
      requires 0 < pageSize <= chunkSize
      ensures Sound() && this.chunkSize == freeBytes == chunkSize && this.pageSize == pageSize
    {
      this.chunkSize, this.pageSize, freeBytes, largest := chunkSize, pageSize, chunkSize, chunkSize;
      Buddy.UsageRoundsUp(chunkSize, chunkSize);
      usage := Buddy.Usage(chunkSize, chunkSize);
      parent, prev, next := null, null, null;
    }

    ghost predicate Sound()
      reads this`freeBytes, this`largest, this`usage
    {
      && 0 < pageSize <= chunkSize && largest <= freeBytes <= chunkSize
      && (freeBytes == chunkSize ==> largest == chunkSize)
      && usage == Buddy.Usage(freeBytes, chunkSize)
      && (usage == 0 <==> freeBytes == chunkSize)
    }

    /** The chunk has a run for the request; one that is less than a page takes a page. */
    ghost predicate CanServe(normCapacity: nat)
      reads this`largest
    {
      Max(normCapacity, pageSize) <= largest
    }

    /** Takes a run for a normalised capacity, which is a power of two from one page on. How much the largest run
        shrinks depends on where the runs lie. */
    method Allocate(normCapacity: nat) returns (done: bool)
      requires Sound()
      modifies this`freeBytes, this`largest, this`usage
      ensures Sound()
      ensures done <==> normCapacity <= old(largest) && pageSize <= old(largest)
      ensures done ==> freeBytes == old(freeBytes) - Max(normCapacity, pageSize) && largest <= old(largest)
      ensures old(usage) <= usage
      ensures !done ==> freeBytes == old(freeBytes) && largest == old(largest) && usage == old(usage)
    {
      var bytes := Max(normCapacity, pageSize);
      if bytes > largest {
        return false;
      }
      Buddy.UsageMonotone(freeBytes - bytes, freeBytes, chunkSize);
      freeBytes := freeBytes - bytes;
      var left: nat :| left <= freeBytes && left <= largest;
      largest := left;
      Buddy.UsageRoundsUp(freeBytes, chunkSize);
      usage := Buddy.Usage(freeBytes, chunkSize);
      done := true;
    }

    /** Gives back the bytes of a run, or none when its page still holds other subpages. */
    method Free(bytes: nat)
      requires Sound() && freeBytes + bytes <= chunkSize
      modifies this`freeBytes, this`largest, this`usage
      ensures Sound() && freeBytes == old(freeBytes) + bytes && usage <= old(usage)
      ensures largest >= old(largest) && (bytes == 0 ==> largest == old(largest))
    {
      Buddy.UsageMonotone(freeBytes, freeBytes + bytes, chunkSize);
      freeBytes := freeBytes + bytes;
      if freeBytes == chunkSize {
        largest := chunkSize;
      } else if bytes > 0 {
        var merged: nat :| largest <= merged <= freeBytes;
        largest := merged;
      }
      Buddy.UsageRoundsUp(freeBytes, chunkSize);
      usage := Buddy.Usage(freeBytes, chunkSize);
    }
  }

  /** The chunk at a position, null beyond either end. */
  ghost function At(s: seq<Chunk>, i: int): Chunk? {
    if 0 <= i < |s| then s[i] else null
  }

  ghost predicate NoneServes(s: seq<Chunk>, normCapacity: nat)
    reads s`largest
  {
    forall k :: 0 <= k < |s| ==> !s[k].CanServe(normCapacity)
  }

  /** The first chunk that can serve the request, null when none can. */
  ghost function FirstServing(s: seq<Chunk>, normCapacity: nat): (c: Chunk?)
    reads s`largest
    ensures c == null ==> NoneServes(s, normCapacity)
    ensures c != null ==>
      c.CanServe(normCapacity) &&
      exists p :: 0 <= p < |s| && s[p] == c && forall k :: 0 <= k < p ==> !s[k].CanServe(normCapacity)
  {
    if s == [] then null
    else if s[0].CanServe(normCapacity) then s[0]
    else FirstServing(s[1..], normCapacity)
  }

  /** The first that is not null. */
  ghost function FirstOf(s: seq<Chunk?>): (c: Chunk?)
    ensures c == null ==> forall k :: 0 <= k < |s| ==> s[k] == null
    ensures c != null ==> exists p :: 0 <= p < |s| && s[p] == c && forall k :: 0 <= k < p ==> s[k] == null
  {
    if s == [] then null else if s[0] != null then s[0] else FirstOf(s[1..])
  }

  lemma FirstOfFive(a: Chunk?, b: Chunk?, c: Chunk?, d: Chunk?, e: Chunk?, first: Chunk?)
    requires first ==
      if a != null then a else if b != null then b else if c != null then c else if d != null then d else e
    ensures first == FirstOf([a, b, c, d, e])
  {
    var s := [a, b, c, d, e];
    assert s[0] == a && s[1] == b && s[2] == c && s[3] == d && s[4] == e;
  }

  // ----- calculateMaxCapacity -----

  /** The most that a list with this minimum usage offers to serve. */
  function MaxCapacity(minUsage: int, chunkSize: nat): int {
    var least := Max(1, minUsage);
    if least == 100 then 0 else chunkSize * (100 - least) / 100
  }

  /** Some chunk with at least the list's least usage could serve n bytes, yet the list refuses to look. */
  ghost predicate RefusalLoses(minUsage: int, chunkSize: nat, n: nat)
    requires chunkSize > 0
  {
    && n > MaxCapacity(minUsage, chunkSize)
    && exists free :: n <= free <= chunkSize && Buddy.Usage(free, chunkSize) >= minUsage
  }

  /** For runs, whose sizes are powers of two, maxCapacity turns no request away that a chunk of the list could
      serve, with one exception: the first list refuses a whole chunk even when it holds an empty one. */
  lemma RefusalLosesIff(minUsage: int, L: nat, k: nat)
    requires minUsage in {INT_MIN, 1, 25, 50, 75, 100} && 2 <= L && k <= L
    ensures RefusalLoses(minUsage, Pow2(L), Pow2(k)) <==> minUsage == INT_MIN && k == L
  {
    var q := Pow2(L - 2);
    assert Pow2(L) == 4 * q && Pow2(L - 1) == 2 * q by {
      assert Pow2(L) == 2 * Pow2(L - 1);
    }
    if k == L {
      WholeChunk(minUsage, q);
    } else if k == L - 1 {
      HalfChunk(minUsage, q);
    } else {
      Pow2Monotone(k, L - 2);
      QuarterChunk(minUsage, q, Pow2(k));
    }
  }

  lemma Capacities(minUsage: int, q: nat)
    requires minUsage in {INT_MIN, 1, 25, 50, 75, 100} && q > 0
    ensures minUsage <= 25 ==> 3 * q <= MaxCapacity(minUsage, 4 * q) < 4 * q
    ensures minUsage == 50 ==> MaxCapacity(minUsage, 4 * q) == 2 * q
    ensures minUsage == 75 ==> MaxCapacity(minUsage, 4 * q) == q
    ensures minUsage == 100 ==> MaxCapacity(minUsage, 4 * q) == 0
  {
  }

  /** No chunk with n free bytes belongs to a list whose least usage is above that of n free bytes. */
  lemma NotInBand(minUsage: int, chunkSize: nat, n: nat)
    requires 0 < chunkSize && n <= chunkSize && Buddy.Usage(n, chunkSize) < minUsage
    ensures !RefusalLoses(minUsage, chunkSize, n)
  {
    forall free | n <= free <= chunkSize
      ensures Buddy.Usage(free, chunkSize) < minUsage
    {
      Buddy.UsageMonotone(n, free, chunkSize);
    }
  }

  lemma WholeChunk(minUsage: int, q: nat)
    requires minUsage in {INT_MIN, 1, 25, 50, 75, 100} && q > 0
    ensures RefusalLoses(minUsage, 4 * q, 4 * q) <==> minUsage == INT_MIN
  {
    Capacities(minUsage, q);
    Buddy.UsageRoundsUp(4 * q, 4 * q);
    if minUsage > 0 {
      NotInBand(minUsage, 4 * q, 4 * q);
    }
  }

  lemma HalfChunk(minUsage: int, q: nat)
    requires minUsage in {INT_MIN, 1, 25, 50, 75, 100} && q > 0
    ensures !RefusalLoses(minUsage, 4 * q, 2 * q)
  {
    Capacities(minUsage, q);
    HalfFree(q);
    if minUsage > 50 {
      NotInBand(minUsage, 4 * q, 2 * q);
    }
  }

  lemma QuarterChunk(minUsage: int, q: nat, n: nat)
    requires minUsage in {INT_MIN, 1, 25, 50, 75, 100} && 0 < n <= q
    ensures !RefusalLoses(minUsage, 4 * q, n)
  {
    Capacities(minUsage, q);
    if minUsage == 100 {
      Buddy.UsageRoundsUp(n, 4 * q);
      NotInBand(minUsage, 4 * q, n);
    }
  }

  lemma HalfFree(q: nat)
    requires q > 0
    ensures Buddy.Usage(2 * q, 4 * q) == 50
  {
    assert 2 * q * 100 / (4 * q) == 50 by {
      assert 2 * q * 100 == 50 * (4 * q);
    }
  }

  class PoolChunkList {
    ghost const rank: nat
    const nextList: PoolChunkList?
    const minUsage: int
    const maxUsage: int
    const maxCapacity: int
    var prevList: PoolChunkList?
    var head: Chunk?
    ghost var chunks: seq<Chunk>
    ghost var elems: set<Chunk>

    constructor (nextList: PoolChunkList?, minUsage: int, maxUsage: int, chunkSize: nat, ghost rank: nat)
      ensures this.rank == rank
      ensures this.nextList == nextList && this.minUsage == minUsage && this.maxUsage == maxUsage
      ensures maxCapacity == MaxCapacity(minUsage, chunkSize)
      ensures Empty() && prevList == null
    {
      this.rank := rank;
      this.nextList, prevList, this.minUsage, this.maxUsage := nextList, null, minUsage, maxUsage;
      maxCapacity := MaxCapacity(minUsage, chunkSize);
      head, chunks, elems := null, [], {};
    }

    /** The least usage, the usage to stay below, and the most bytes that the list looks for. */
    ghost function Band(): (int, int, int) {
      (minUsage, maxUsage, maxCapacity)
    }

    /** next and prev are inverse to one another along the chunks. */
    ghost predicate Linked()
      reads this`head, this`chunks, this`elems, elems`next, elems`prev
    {
      && elems == Elems(chunks)
      && Distinct(chunks)
      && head == At(chunks, 0)
      && (forall i {:trigger chunks[i].next} :: 0 <= i < |chunks| ==> chunks[i].next == At(chunks, i + 1))
      && (forall i {:trigger chunks[i].prev} :: 0 <= i < |chunks| ==> chunks[i].prev == At(chunks, i - 1))
    }

    /** The chunk knows this list as its owner and its usage lies in the band. */
    ghost predicate Holds(chunk: Chunk)
      reads chunk`parent, chunk`freeBytes, chunk`largest, chunk`usage
    {
      chunk.parent == this && chunk.Sound() && minUsage <= chunk.usage < maxUsage
    }

    /** The chunk that a request would get from this list, null when the list would refuse. */
    ghost function Server(normCapacity: nat): (c: Chunk?)
      reads this`chunks, chunks`largest
      ensures c == null <==> normCapacity > maxCapacity || NoneServes(chunks, normCapacity)
      ensures c != null ==> c in chunks && c.CanServe(normCapacity)
    {
      if normCapacity > maxCapacity then null else FirstServing(chunks, normCapacity)
    }

    ghost predicate Empty()
      reads this`head, this`chunks, this`elems
    {
      head == null && chunks == [] && elems == {}
    }

    ghost predicate Valid()
      reads this`head, this`chunks, this`elems, elems
    {
      Linked() && forall c :: c in elems ==> Holds(c)
    }

    /** Pushes the chunk at the front. */
    method Add0(chunk: Chunk)
      requires Linked() && chunk !in elems
      modifies this`head, this`chunks, this`elems, elems`prev, chunk`parent, chunk`prev, chunk`next
      ensures Linked() && chunks == [chunk] + old(chunks) && elems == old(elems) + {chunk} && chunk.parent == this
    {
      chunk.parent := this;
      if head == null {
        head := chunk;
        chunk.prev := null;
        chunk.next := null;
      } else {
        chunk.prev := null;
        chunk.next := head;
        head.prev := chunk;
        head := chunk;
      }
      ghost var s := chunks;
      chunks, elems := [chunk] + s, elems + {chunk};
      assert forall i :: 1 <= i < |chunks| ==> chunks[i] == s[i - 1];
    }

    /** Unlinks the chunk at position p. */
    method Remove(cur: Chunk, ghost p: nat)
      requires Linked() && p < |chunks| && chunks[p] == cur
      modifies this`head, this`chunks, this`elems, elems`next, elems`prev
      ensures Linked() && chunks == Without(old(chunks), p) && elems == old(elems) - {cur}
    {
      ghost var s := chunks;
      assert cur.next == At(s, p + 1) && cur.prev == At(s, p - 1);
      if cur == head {
        head := cur.next;
        if head != null {
          head.prev := null;
        }
      } else {
        var next := cur.next;
        cur.prev.next := next;
        if next != null {
          next.prev := cur.prev;
        }
      }
      DistinctWithout(s, p);
      ghost var t := Without(s, p);
      forall i | 0 <= i < |t|
        ensures t[i].next == At(t, i + 1) && t[i].prev == At(t, i - 1)
      {
        var k := if i < p then i else i + 1;
        assert t[i] == s[k];
        assert k != p - 1 ==> s[k].next == At(s, k + 1);
        assert k != p + 1 ==> s[k].prev == At(s, k - 1);
      }
      chunks, elems := t, elems - {cur};
    }
  
    /** Unlinks a chunk whose usage has left the band. */
    method Detach(chunk: Chunk, ghost p: nat, ghost chain: seq<PoolChunkList>, ghost live: set<Chunk>, ghost i: nat)
      requires Loose(chain, live, i, chunk) && chain[i] == this
      requires p < |chunks| && chunks[p] == chunk
      modifies this`head, this`chunks, this`elems, elems`next, elems`prev
      ensures InBands(chain, live - {chunk}) && chunks == Without(old(chunks), p)
      ensures live - {chunk} + {chunk} == live
    {
      assert chunk in live;
      OthersApart(chain, live, i);
      Remove(chunk, p);
      assert Members(chain, live - {chunk});
    }

    /** Takes in a chunk whose usage lies in the band. */
    method Attach(chunk: Chunk, ghost chain: seq<PoolChunkList>, ghost live: set<Chunk>, ghost i: nat)
      requires InBands(chain, live) && i < |chain| && chain[i] == this && chunk !in live
      requires chunk.Sound() && minUsage <= chunk.usage < maxUsage
      modifies this`head, this`chunks, this`elems, elems`prev, chunk`parent, chunk`prev, chunk`next
      ensures InBands(chain, live + {chunk}) && chunk.parent == this && chunks == [chunk] + old(chunks)
    {
      OthersApart(chain, live, i);
      assert Valid();
      Add0(chunk);
      assert Members(chain, live + {chunk});
    }

    /** Moves the chunk up to the first list, from this one on, that its usage is not too high for. */
    method Add(chunk: Chunk, ghost chain: seq<PoolChunkList>, ghost live: set<Chunk>, ghost i: nat)
      returns (ghost j: nat)
      requires InBands(chain, live) && i < |chain| && chain[i] == this && chunk !in live
      requires chunk.Sound() && minUsage <= chunk.usage
      modifies Lists(chain)`head, Lists(chain)`chunks, Lists(chain)`elems, live`prev
      modifies chunk`parent, chunk`prev, chunk`next
      ensures InBands(chain, live + {chunk})
      ensures MovedUp(chain, chunk, i) && j < |chain| && chunk.parent == chain[j]
      ensures chain[j].chunks == [chunk] + old(chain[j].chunks)
      decreases |chain| - i
    {
      assert Valid();
      if chunk.usage >= maxUsage {
        BandAbove(chain, i);
        j := nextList.Add(chunk, chain, live, i + 1);
        FurtherUp(chain, chunk, i);
      } else {
        Attach(chunk, chain, live, i);
        j := i;
      }
    }

    /** A new chunk that serves the request enters at this list, the first one. */
    method AddNew(chunkSize: nat, pageSize: nat, normCapacity: nat, ghost chain: seq<PoolChunkList>,
        ghost live: set<Chunk>) returns (c: Chunk)
      requires InBands(chain, live) && chain[0] == this && 0 < pageSize <= chunkSize && normCapacity <= chunkSize
      modifies Lists(chain)`head, Lists(chain)`chunks, Lists(chain)`elems, live`prev
      ensures fresh(c) && c.freeBytes == chunkSize - Max(normCapacity, pageSize)
      ensures InBands(chain, live + {c}) && MovedUp(chain, c, 0)
      ensures forall o :: o in live ==> o.freeBytes == old(o.freeBytes) && o.parent == old(o.parent)
    {
      c := new Chunk(chunkSize, pageSize);
      var success := c.Allocate(normCapacity);
      assert success;
      BandFloor(chain, 0);
      ghost var j := Add(c, chain, live, 0);
    }

    /** Moves the chunk down to the first list, from this one on, that its usage is not too low for. Only an
        empty chunk finds none. */
    method Move(chunk: Chunk, ghost chain: seq<PoolChunkList>, ghost live: set<Chunk>, ghost i: nat)
      returns (kept: bool, ghost j: nat)
      requires InBands(chain, live) && i < |chain| && chain[i] == this && chunk !in live
      requires chunk.Sound() && chunk.usage < maxUsage
      modifies Lists(chain)`head, Lists(chain)`chunks, Lists(chain)`elems, live`prev
      modifies chunk`parent, chunk`prev, chunk`next
      ensures Placed(chain, live, chunk, i, kept)
      ensures kept ==> j < |chain| && chunk.parent == chain[j] && chain[j].chunks == [chunk] + old(chain[j].chunks)
      decreases i, 1
    {
      if chunk.usage < minUsage {
        kept, j := Move0(chunk, chain, live, i);
        return;
      }
      Attach(chunk, chain, live, i);
      kept, j := true, i;
    }

    method Move0(chunk: Chunk, ghost chain: seq<PoolChunkList>, ghost live: set<Chunk>, ghost i: nat)
      returns (kept: bool, ghost j: nat)
      requires InBands(chain, live) && i < |chain| && chain[i] == this && chunk !in live
      requires chunk.Sound() && chunk.usage < minUsage
      modifies Lists(chain)`head, Lists(chain)`chunks, Lists(chain)`elems, live`prev
      modifies chunk`parent, chunk`prev, chunk`next
      ensures Placed(chain, live, chunk, i, kept)
      ensures kept ==> j < |chain| && chunk.parent == chain[j] && chain[j].chunks == [chunk] + old(chain[j].chunks)
      decreases i, 0
    {
      if prevList == null {
        BandBelow(chain, i);
        assert chunk.usage == 0;
        return false, 0;
      }
      BandBelow(chain, i);
      kept, j := prevList.Move(chunk, chain, live, i - 1);
      FurtherDown(chain, live, chunk, i, kept);
    }

    /** Gives bytes back to a chunk of this list. The answer is no exactly when the chunk is empty now, unless this
        is the first list; the chunk has then left every list. Otherwise it is in the list for its usage. */
    method Free(chunk: Chunk, bytes: nat, ghost chain: seq<PoolChunkList>, ghost live: set<Chunk>, ghost i: nat)
      returns (kept: bool)
      requires InBands(chain, live) && i < |chain| && chain[i] == this
      requires chunk in live && chunk.parent == this && chunk.freeBytes + bytes <= chunk.chunkSize
      modifies Lists(chain)`head, Lists(chain)`chunks, Lists(chain)`elems, live`prev, live`next
      modifies chunk`parent, chunk`freeBytes, chunk`largest, chunk`usage
      ensures chunk.Sound() && chunk.freeBytes == old(chunk.freeBytes) + bytes
      ensures kept <==> i == 0 || chunk.freeBytes < chunk.chunkSize
      ensures kept ==> InBands(chain, live) && MovedDown(chain, chunk, i)
      ensures !kept ==> InBands(chain, live - {chunk})
    {
      Release(chunk, bytes, chain, live, i);
      if chunk.usage < minUsage {
        kept := Demote(chunk, chain, live, i);
      } else {
        BandFloor(chain, i);
        StillHeld(chain, live, i, chunk);
        kept := true;
      }
    }

    method Demote(chunk: Chunk, ghost chain: seq<PoolChunkList>, ghost live: set<Chunk>, ghost i: nat)
      returns (kept: bool)
      requires Loose(chain, live, i, chunk) && chain[i] == this && chunk.usage < minUsage
      modifies Lists(chain)`head, Lists(chain)`chunks, Lists(chain)`elems, live`prev, live`next, chunk`parent
      ensures kept <==> i == 0 || chunk.usage > 0
      ensures kept ==> InBands(chain, live) && MovedDown(chain, chunk, i)
      ensures !kept ==> InBands(chain, live - {chunk})
    {
      ghost var p :| 0 <= p < |chunks| && chunks[p] == chunk;
      Detach(chunk, p, chain, live, i);
      ghost var j;
      kept, j := Move0(chunk, chain, live - {chunk}, i);
    }

    method Release(chunk: Chunk, bytes: nat, ghost chain: seq<PoolChunkList>, ghost live: set<Chunk>, ghost i: nat)
      requires InBands(chain, live) && i < |chain| && chain[i] == this
      requires chunk in live && chunk.parent == this && chunk.freeBytes + bytes <= chunk.chunkSize
      modifies chunk`freeBytes, chunk`largest, chunk`usage
      ensures Loose(chain, live, i, chunk) && chunk.usage < maxUsage
      ensures chunk.freeBytes == old(chunk.freeBytes) + bytes
    {
      assert Valid() && Holds(chunk);
      OthersApart(chain, live, i);
      chunk.Free(bytes);
    }

    /** The first chunk of the list that can serve the request does so; null when none can. */
    method FirstFit(normCapacity: nat) returns (cur: Chunk?, ghost p: nat)
      requires Valid()
      modifies elems`freeBytes, elems`largest, elems`usage
      ensures Linked()
      ensures cur == old(FirstServing(chunks, normCapacity))
      ensures cur == null ==> Valid()
      ensures cur != null ==> p < |chunks| && chunks[p] == cur && cur in elems && cur.Sound() && cur.parent == this
      ensures cur != null ==> minUsage <= cur.usage
      ensures cur != null ==> cur.freeBytes == old(cur.freeBytes) - Max(normCapacity, cur.pageSize)
      ensures cur != null ==> forall c :: c in elems && c != cur ==> Holds(c)
      ensures forall c :: c in elems && c != cur ==> c.freeBytes == old(c.freeBytes) && c.largest == old(c.largest)
    {
      cur, p := head, 0;
      while cur != null
        invariant p <= |chunks| && cur == At(chunks, p) && Valid()
        invariant forall c :: c in elems ==>
          c.freeBytes == old(c.freeBytes) && c.largest == old(c.largest) && c.usage == old(c.usage)
        invariant forall k :: 0 <= k < p ==> !old(chunks[k].CanServe(normCapacity))
        decreases |chunks| - p
      {
        assert cur in elems && Holds(cur);
        var done := cur.Allocate(normCapacity);
        if done {
          return;
        }
        cur, p := cur.next, p + 1;
      }
    }

    /** Serves a request from the first chunk that can, and moves that chunk up when its usage has left the band. */
    method Allocate(normCapacity: nat, ghost chain: seq<PoolChunkList>, ghost live: set<Chunk>, ghost i: nat)
      returns (done: bool, ghost chunk: Chunk?)
      requires InBands(chain, live) && i < |chain| && chain[i] == this
      modifies Lists(chain)`head, Lists(chain)`chunks, Lists(chain)`elems, live`prev, live`next
      modifies live`parent, live`freeBytes, live`largest, live`usage
      ensures InBands(chain, live)
      ensures chunk == (if normCapacity > maxCapacity then null else old(FirstServing(chunks, normCapacity)))
      ensures done <==> chunk != null
      ensures done ==> chunk in old(elems)
      ensures done ==> chunk.freeBytes == old(chunk.freeBytes) - Max(normCapacity, chunk.pageSize)
      ensures done ==> MovedUp(chain, chunk, i)
      ensures forall c :: c in live && c != chunk ==> c.freeBytes == old(c.freeBytes) && c.largest == old(c.largest)
      ensures forall c :: c in live && c != chunk ==> c.parent == old(c.parent)
      ensures !done ==> unchanged(Lists(chain)`chunks, Lists(chain)`elems)
    {
      if normCapacity > maxCapacity {
        return false, null;
      }
      var cur, p := Serve(normCapacity, chain, live, i);
      if cur == null {
        return false, null;
      }
      Settle(cur, p, chain, live, i);
      return true, cur;
    }

    /** Moves the chunk up if its usage has left the band. */
    method Settle(chunk: Chunk, ghost p: nat, ghost chain: seq<PoolChunkList>, ghost live: set<Chunk>, ghost i: nat)
      requires Loose(chain, live, i, chunk) && chain[i] == this && p < |chunks| && chunks[p] == chunk
      requires minUsage <= chunk.usage
      modifies Lists(chain)`head, Lists(chain)`chunks, Lists(chain)`elems, live`prev, live`next, chunk`parent
      ensures InBands(chain, live) && MovedUp(chain, chunk, i)
      ensures forall c :: c in live ==> c.freeBytes == old(c.freeBytes) && c.largest == old(c.largest)
      ensures forall c :: c in live && c != chunk ==> c.parent == old(c.parent)
    {
      if chunk.usage >= maxUsage {
        BandAbove(chain, i);
        Promote(chunk, p, chain, live, i);
      } else {
        StillHeld(chain, live, i, chunk);
      }
    }

    method Promote(chunk: Chunk, ghost p: nat, ghost chain: seq<PoolChunkList>, ghost live: set<Chunk>, ghost i: nat)
      requires Loose(chain, live, i, chunk) && chain[i] == this && p < |chunks| && chunks[p] == chunk
      requires i + 1 < |chain| && nextList == chain[i + 1]
      requires nextList.minUsage <= chunk.usage && maxUsage <= chunk.usage
      modifies Lists(chain)`head, Lists(chain)`chunks, Lists(chain)`elems, live`prev, live`next, chunk`parent
      ensures InBands(chain, live) && MovedUp(chain, chunk, i)
    {
      Detach(chunk, p, chain, live, i);
      PassUp(chunk, chain, live, i);
    }

    method PassUp(chunk: Chunk, ghost chain: seq<PoolChunkList>, ghost live: set<Chunk>, ghost i: nat)
      requires InBands(chain, live - {chunk}) && i + 1 < |chain| && chunk in live && chunk.Sound()
      requires nextList == chain[i + 1] && nextList.minUsage <= chunk.usage
      modifies Lists(chain)`head, Lists(chain)`chunks, Lists(chain)`elems, live`prev, live`next, chunk`parent
      ensures InBands(chain, live) && MovedUp(chain, chunk, i + 1)
    {
      assert live - {chunk} + {chunk} == live;
      ghost var j := nextList.Add(chunk, chain, live - {chunk}, i + 1);
    }

    method Serve(normCapacity: nat, ghost chain: seq<PoolChunkList>, ghost live: set<Chunk>, ghost i: nat)
      returns (cur: Chunk?, ghost p: nat)
      requires InBands(chain, live) && i < |chain| && chain[i] == this
      modifies elems`freeBytes, elems`largest, elems`usage
      ensures cur == old(FirstServing(chunks, normCapacity))
      ensures cur == null ==> InBands(chain, live)
      ensures cur != null ==> Loose(chain, live, i, cur) && minUsage <= cur.usage
      ensures cur != null ==> p < |chunks| && chunks[p] == cur
      ensures cur != null ==> cur.freeBytes == old(cur.freeBytes) - Max(normCapacity, cur.pageSize)
      ensures forall c :: c in live && c != cur ==> c.freeBytes == old(c.freeBytes) && c.largest == old(c.largest)
    {
      OthersApart(chain, live, i);
      assert Valid();
      cur, p := FirstFit(normCapacity);
    }
  }

  /** From list i the chunk has reached the first list whose band its usage is not above. */
  ghost predicate MovedUp(chain: seq<PoolChunkList>, chunk: Chunk, i: nat)
    reads chunk`parent, chunk`usage
  {
    && chunk.parent != null && i <= chunk.parent.rank < |chain| && chain[chunk.parent.rank] == chunk.parent
    && forall k :: i <= k < chunk.parent.rank ==> chunk.usage >= chain[k].maxUsage
  }

  /** From list i the chunk has reached the first list downwards whose band its usage is not below. */
  ghost predicate MovedDown(chain: seq<PoolChunkList>, chunk: Chunk, i: nat)
    requires i < |chain|
    reads chunk`parent, chunk`usage
  {
    && chunk.parent != null && chunk.parent.rank <= i && chain[chunk.parent.rank] == chunk.parent
    && forall k :: chunk.parent.rank < k <= i ==> chunk.usage < chain[k].minUsage
  }

  /** A chunk moved down from list i has found its list, or is empty and belongs to none. */
  ghost predicate Placed(chain: seq<PoolChunkList>, live: set<Chunk>, chunk: Chunk, i: nat, kept: bool)
    requires i < |chain|
    reads Lists(chain), live, chunk
  {
    && (kept <==> i == 0 || chunk.usage > 0)
    && (kept ==> InBands(chain, live + {chunk}) && MovedDown(chain, chunk, i))
    && (!kept ==> InBands(chain, live))
  }

  lemma FurtherUp(chain: seq<PoolChunkList>, chunk: Chunk, i: nat)
    requires i < |chain| && MovedUp(chain, chunk, i + 1) && chunk.usage >= chain[i].maxUsage
    ensures MovedUp(chain, chunk, i)
  {
  }

  lemma FurtherDown(chain: seq<PoolChunkList>, live: set<Chunk>, chunk: Chunk, i: nat, kept: bool)
    requires 2 <= i < |chain| && Placed(chain, live, chunk, i - 1, kept) && chunk.usage < chain[i].minUsage
    ensures Placed(chain, live, chunk, i, kept)
  {
  }

  ghost function Lists(chain: seq<PoolChunkList>): set<PoolChunkList> {
    set l | l in chain
  }

  ghost function ListAt(chain: seq<PoolChunkList>, i: int): PoolChunkList? {
    if 0 <= i < |chain| then chain[i] else null
  }

  /** The lists in order of usage, linked as the arena links them: each band meets or overlaps the next one, the
      first never gives up an empty chunk and the second has nowhere to pass one on to. */
  ghost predicate Bands(chain: seq<PoolChunkList>)
    reads Lists(chain)`prevList
  {
    && |chain| >= 2
    && (forall i :: 0 <= i < |chain| ==> chain[i].rank == i)
    && (forall i {:trigger chain[i].nextList} :: 0 <= i < |chain| ==> chain[i].nextList == ListAt(chain, i + 1))
    && (forall i {:trigger chain[i].prevList} :: 2 <= i < |chain| ==> chain[i].prevList == ListAt(chain, i - 1))
    && chain[0].prevList == chain[0] && chain[1].prevList == null
    && (forall i {:trigger chain[i].maxUsage} :: 0 <= i < |chain| && chain[i].nextList != null ==>
      chain[i].nextList.minUsage <= chain[i].maxUsage)
    && (forall i {:trigger chain[i].minUsage} :: 1 <= i < |chain| ==> chain[i].minUsage >= 1)
    && chain[0].minUsage <= 0 && chain[1].minUsage == 1 && chain[|chain| - 1].maxUsage > 100
  }

  /** The lists contain the live chunks and no others, each in the list it names as its owner. */
  ghost predicate Members(chain: seq<PoolChunkList>, live: set<Chunk>)
    reads Lists(chain)`elems, live`parent
  {
    && (forall i, c :: 0 <= i < |chain| && c in chain[i].elems ==> c in live && c.parent == chain[i])
    && (forall c :: c in live ==> c.parent != null && ListAt(chain, c.parent.rank) == c.parent && c in c.parent.elems)
  }

  ghost predicate OthersValid(chain: seq<PoolChunkList>, live: set<Chunk>, i: int)
    requires Members(chain, live)
    reads Lists(chain), live
  {
    forall k :: 0 <= k < |chain| && k != i ==> chain[k].Valid()
  }

  /** Every live chunk is in exactly one list, the one for its usage. */
  ghost predicate InBands(chain: seq<PoolChunkList>, live: set<Chunk>)
    reads Lists(chain), live
  {
    Bands(chain) && Members(chain, live) && OthersValid(chain, live, -1)
  }

  lemma BandAbove(chain: seq<PoolChunkList>, i: nat)
    requires Bands(chain) && i < |chain| && chain[i].maxUsage <= 100
    ensures i + 1 < |chain| && chain[i].nextList == chain[i + 1] && chain[i + 1].minUsage <= chain[i].maxUsage
  {
  }

  lemma BandBelow(chain: seq<PoolChunkList>, i: nat)
    requires Bands(chain) && i < |chain| && chain[i].minUsage > 0
    ensures i >= 1 && (i == 1 ==> chain[i].minUsage == 1 && chain[i].prevList == null)
    ensures i > 1 ==> chain[i].prevList == chain[i - 1] && chain[i].minUsage <= chain[i - 1].maxUsage
  {
    assert i > 1 ==> chain[i - 1].nextList == chain[i];
  }

  /** Everything is in its band except possibly the given chunk of list i. */
  ghost predicate Loose(chain: seq<PoolChunkList>, live: set<Chunk>, i: nat, chunk: Chunk)
    reads Lists(chain), live
  {
    && Bands(chain) && Members(chain, live) && i < |chain|
    && OthersValid(chain, live, i) && chain[i].Linked()
    && chunk in chain[i].elems && chunk.Sound()
    && forall c :: c in chain[i].elems && c != chunk ==> chain[i].Holds(c)
  }

  lemma StillHeld(chain: seq<PoolChunkList>, live: set<Chunk>, i: nat, chunk: Chunk)
    requires Loose(chain, live, i, chunk) && chain[i].minUsage <= chunk.usage < chain[i].maxUsage
    ensures InBands(chain, live) && MovedUp(chain, chunk, i) && MovedDown(chain, chunk, i)
  {
    assert chain[i].Valid();
  }

  lemma BandFloor(chain: seq<PoolChunkList>, i: nat)
    requires Bands(chain) && i < |chain|
    ensures i > 0 ==> chain[i].minUsage >= 1
    ensures i == 0 ==> chain[i].minUsage <= 0
  {
  }

  lemma OthersApart(chain: seq<PoolChunkList>, live: set<Chunk>, i: nat)
    requires Bands(chain) && Members(chain, live) && i < |chain|
    ensures forall k :: 0 <= k < |chain| && k != i ==> chain[k] != chain[i]
    ensures forall k :: 0 <= k < |chain| && k != i ==> chain[k].elems !! chain[i].elems
  {
    forall k, c | 0 <= k < |chain| && k != i && c in chain[k].elems
      ensures c !in chain[i].elems
    {
      assert c.parent == chain[k];
    }
  }

  /** A live chunk is in one list only, and its usage is in that list's band. */
  lemma ExactlyOneList(chain: seq<PoolChunkList>, live: set<Chunk>, chunk: Chunk)
    requires InBands(chain, live) && chunk in live
    ensures exists i :: 0 <= i < |chain| && chunk in chain[i].elems
    ensures forall i :: 0 <= i < |chain| && chunk in chain[i].elems ==>
      && chunk.parent == chain[i] && chain[i].minUsage <= chunk.usage < chain[i].maxUsage
      && (forall j :: 0 <= j < |chain| && chunk in chain[j].elems ==> i == j)
  {
    assert chunk in chain[chunk.parent.rank].elems;
  }

  /** An empty chunk is in the first list, and while there is one no request that list looks for needs a new chunk. */
  lemma EmptyChunkServes(chain: seq<PoolChunkList>, live: set<Chunk>, chunk: Chunk, normCapacity: nat)
    requires InBands(chain, live) && chunk in live && chunk.freeBytes == chunk.chunkSize
    requires normCapacity <= chunk.chunkSize && normCapacity <= chain[0].maxCapacity
    ensures chunk.parent == chain[0] && chain[0].Server(normCapacity) != null
  {
    var i := chunk.parent.rank;
    assert chain[i].Valid() && chain[i].Holds(chunk);
    BandFloor(chain, i);
    var list := chain[0];
    var p :| 0 <= p < |list.chunks| && list.chunks[p] == chunk;
    assert !NoneServes(list.chunks, normCapacity);
  }

  /** next and prev undo one another, and only the head has nothing before it. */
  lemma LinksInverse(list: PoolChunkList, chunk: Chunk)
    requires list.Linked() && chunk in list.elems
    ensures chunk.next != null ==> chunk.next in list.elems && chunk.next.prev == chunk
    ensures chunk.prev != null ==> chunk.prev in list.elems && chunk.prev.next == chunk
    ensures chunk.prev == null <==> list.head == chunk
  {
    var p :| 0 <= p < |list.chunks| && list.chunks[p] == chunk;
    assert chunk.next == At(list.chunks, p + 1) && chunk.prev == At(list.chunks, p - 1);
  }

  // ----- The arena -----

  /** The six lists and their links satisfy what the migrations need. */
  lemma ArenaBands(a: PoolChunkList, b: PoolChunkList, c: PoolChunkList, d: PoolChunkList, e: PoolChunkList,
      f: PoolChunkList)
    requires a.rank == 0 && b.rank == 1 && c.rank == 2 && d.rank == 3 && e.rank == 4 && f.rank == 5
    requires a.nextList == b && b.nextList == c && c.nextList == d && d.nextList == e && e.nextList == f &&
      f.nextList == null
    requires a.prevList == a && b.prevList == null && c.prevList == b && d.prevList == c && e.prevList == d &&
      f.prevList == e
    requires (a.minUsage, a.maxUsage) == (INT_MIN, 25) && (b.minUsage, b.maxUsage) == (1, 50)
    requires (c.minUsage, c.maxUsage) == (25, 75) && (d.minUsage, d.maxUsage) == (50, 100)
    requires (e.minUsage, e.maxUsage) == (75, 100) && (f.minUsage, f.maxUsage) == (100, INT_MAX)
    requires a.Empty() && b.Empty() && c.Empty() && d.Empty() && e.Empty() && f.Empty()
    ensures InBands([a, b, c, d, e, f], {})
  {
    var chain := [a, b, c, d, e, f];
    assert Bands(chain);
    assert forall i :: 0 <= i < 6 ==> chain[i].Empty();
  }

  method NewLists(chunkSize: nat) returns (lInit: PoolChunkList, l000: PoolChunkList, l025: PoolChunkList,
      l050: PoolChunkList, l075: PoolChunkList, l100: PoolChunkList)
    ensures InBands([lInit, l000, l025, l050, l075, l100], {})
    ensures lInit.Band() == (INT_MIN, 25, chunkSize * 99 / 100) && l000.Band() == (1, 50, chunkSize * 99 / 100)
    ensures l025.Band() == (25, 75, chunkSize * 75 / 100) && l050.Band() == (50, 100, chunkSize * 50 / 100)
    ensures l075.Band() == (75, 100, chunkSize * 25 / 100) && l100.Band() == (100, INT_MAX, 0)
    ensures fresh(lInit) && fresh(l000) && fresh(l025) && fresh(l050) && fresh(l075) && fresh(l100)
  {
    l100 := new PoolChunkList(null, 100, INT_MAX, chunkSize, 5);
    l075 := new PoolChunkList(l100, 75, 100, chunkSize, 4);
    l050 := new PoolChunkList(l075, 50, 100, chunkSize, 3);
    l025 := new PoolChunkList(l050, 25, 75, chunkSize, 2);
    l000 := new PoolChunkList(l025, 1, 50, chunkSize, 1);
    lInit := new PoolChunkList(l000, INT_MIN, 25, chunkSize, 0);
    l100.prevList := l075;
    l075.prevList := l050;
    l050.prevList := l025;
    l025.prevList := l000;
    l000.prevList := null;
    lInit.prevList := lInit;
    ArenaBands(lInit, l000, l025, l050, l075, l100);
  }

  /** The part of PoolArena that keeps its chunks in six lists. */
  class PoolArena {
    const chunkSize: nat
    const pageSize: nat
    const qInit: PoolChunkList
    const q000: PoolChunkList
    const q025: PoolChunkList
    const q050: PoolChunkList
    const q075: PoolChunkList
    const q100: PoolChunkList
    ghost var live: set<Chunk>

    ghost function Chain(): seq<PoolChunkList> {
      [qInit, q000, q025, q050, q075, q100]
    }

    ghost predicate Valid()
      reads this, Lists(Chain()), live
    {
      0 < pageSize <= chunkSize && InBands(Chain(), live)
    }

    /** The lists as the arena links them satisfy what the migrations need. */
    constructor (chunkSize: nat, pageSize: nat)
      requires 0 < pageSize <= chunkSize
      ensures Valid() && live == {} && fresh(Lists(Chain())) && this.chunkSize == chunkSize && this.pageSize == pageSize
      ensures qInit.Band() == (INT_MIN, 25, chunkSize * 99 / 100) && q000.Band() == (1, 50, chunkSize * 99 / 100)
      ensures q025.Band() == (25, 75, chunkSize * 75 / 100) && q050.Band() == (50, 100, chunkSize * 50 / 100)
      ensures q075.Band() == (75, 100, chunkSize * 25 / 100) && q100.Band() == (100, INT_MAX, 0)
    {
      var lInit, l000, l025, l050, l075, l100 := NewLists(chunkSize);
      this.chunkSize, this.pageSize := chunkSize, pageSize;
      qInit, q000, q025, q050, q075, q100 := lInit, l000, l025, l050, l075, l100;
      live := {};
    }

    /** Serves a request that fits a chunk. The lists are asked in the order of allocateNormal: the first one that
        offers a run serves it, from its first chunk that has one. Only when none of the five offers a run does a
        new chunk serve, which enters at the first list. Every other chunk keeps its bytes and its list. */
    method AllocateNormal(normCapacity: nat) returns (ghost chunk: Chunk)
      requires Valid() && normCapacity <= chunkSize
      modifies this`live, Lists(Chain())`head, Lists(Chain())`chunks, Lists(Chain())`elems, live
      ensures Valid() && chunk in live && live == old(live) + {chunk}
      ensures var first := FirstOf(old([q050.Server(normCapacity), q025.Server(normCapacity), q000.Server(normCapacity),
          qInit.Server(normCapacity), q075.Server(normCapacity)]));
        if first != null then chunk == first else chunk !in old(live)
      ensures chunk in old(live) ==> chunk.freeBytes == old(chunk.freeBytes) - Max(normCapacity, chunk.pageSize)
      ensures chunk in old(live) ==> old(chunk.parent) != null && MovedUp(Chain(), chunk, old(chunk.parent).rank)
      ensures chunk !in old(live) ==> fresh(chunk) && chunk.freeBytes == chunkSize - Max(normCapacity, pageSize)
      ensures chunk !in old(live) ==> MovedUp(Chain(), chunk, 0)
      ensures forall c :: c in old(live) && c != chunk ==> c.freeBytes == old(c.freeBytes) && c.parent == old(c.parent)
    {
      var done;
      ghost var found;
      done, found := AllocateFromLists(normCapacity);
      if done {
        chunk := found;
      } else {
        chunk := AllocateNew(normCapacity);
      }
    }

    method AllocateNew(normCapacity: nat) returns (ghost chunk: Chunk)
      requires Valid() && normCapacity <= chunkSize
      modifies this`live, Lists(Chain())`head, Lists(Chain())`chunks, Lists(Chain())`elems, live`prev
      ensures Valid() && live == old(live) + {chunk} && fresh(chunk)
      ensures MovedUp(Chain(), chunk, 0) && chunk.freeBytes == chunkSize - Max(normCapacity, pageSize)
      ensures forall c :: c in old(live) ==> c.freeBytes == old(c.freeBytes) && c.parent == old(c.parent)
    {
      chunk := qInit.AddNew(chunkSize, pageSize, normCapacity, Chain(), live);
      Own(live + {chunk});
    }

    ghost method Own(chunks: set<Chunk>)
      requires 0 < pageSize <= chunkSize && InBands(Chain(), chunks)
      modifies this`live
      ensures Valid() && live == chunks
    {
      ghost var chain := Chain();
      live := chunks;
      assert InBands(chain, chunks);
    }

    method AllocateFromLists(normCapacity: nat) returns (done: bool, ghost chunk: Chunk?)
      requires Valid()
      modifies Lists(Chain())`head, Lists(Chain())`chunks, Lists(Chain())`elems
      modifies live`prev, live`next, live`parent, live`freeBytes, live`largest, live`usage
      ensures Valid() && (done <==> chunk != null)
      ensures chunk == FirstOf(old([q050.Server(normCapacity), q025.Server(normCapacity), q000.Server(normCapacity),
          qInit.Server(normCapacity), q075.Server(normCapacity)]))
      ensures done ==> chunk in old(live) && Served(chunk, old(chunk.freeBytes), old(chunk.parent), normCapacity)
      ensures forall c :: c in live && c != chunk ==> c.freeBytes == old(c.freeBytes) && c.parent == old(c.parent)
    {
      ghost var s050, s025, s000, sInit, s075 := q050.Server(normCapacity), q025.Server(normCapacity),
        q000.Server(normCapacity), qInit.Server(normCapacity), q075.Server(normCapacity);
      done, chunk := Ask(q050, 3, normCapacity);
      if !done {
        done, chunk := Ask(q025, 2, normCapacity);
      }
      if !done {
        done, chunk := Ask(q000, 1, normCapacity);
      }
      if !done {
        done, chunk := Ask(qInit, 0, normCapacity);
      }
      if !done {
        done, chunk := Ask(q075, 4, normCapacity);
      }
      FirstOfFive(s050, s025, s000, sInit, s075, chunk);
    }

    /** The chunk, which had these free bytes in that list, has given up a run and moved up as far as it must. */
    ghost predicate Served(chunk: Chunk, freeBytes: nat, list: PoolChunkList?, normCapacity: nat)
      reads this`live, chunk`parent, chunk`freeBytes, chunk`usage
    {
      && chunk in live && list != null && MovedUp(Chain(), chunk, list.rank)
      && chunk.freeBytes == freeBytes - Max(normCapacity, chunk.pageSize)
    }

    /** Asks one list; a refusal changes nothing that the next list looks at. */
    method Ask(list: PoolChunkList, ghost i: nat, normCapacity: nat) returns (done: bool, ghost chunk: Chunk?)
      requires Valid() && i < 6 && Chain()[i] == list
      modifies Lists(Chain())`head, Lists(Chain())`chunks, Lists(Chain())`elems
      modifies live`prev, live`next, live`parent, live`freeBytes, live`largest, live`usage
      ensures Valid() && (done <==> chunk != null)
      ensures chunk == old(list.Server(normCapacity))
      ensures done ==> chunk in old(live) && Served(chunk, old(chunk.freeBytes), old(chunk.parent), normCapacity)
      ensures forall c :: c in live && c != chunk ==> c.freeBytes == old(c.freeBytes) && c.parent == old(c.parent)
      ensures !done ==> q025.Server(normCapacity) == old(q025.Server(normCapacity))
      ensures !done ==> q000.Server(normCapacity) == old(q000.Server(normCapacity))
      ensures !done ==> qInit.Server(normCapacity) == old(qInit.Server(normCapacity))
      ensures !done ==> q075.Server(normCapacity) == old(q075.Server(normCapacity))
    {
      done, chunk := list.Allocate(normCapacity, Chain(), live, i);
    }

    /** Gives bytes back; a chunk that its lists do not keep is destroyed. */
    method FreeChunk(chunk: Chunk, bytes: nat)
      requires Valid() && chunk in live && chunk.freeBytes + bytes <= chunk.chunkSize
      modifies this`live, Lists(Chain())`head, Lists(Chain())`chunks, Lists(Chain())`elems
      modifies live`prev, live`next, chunk`parent, chunk`freeBytes, chunk`largest, chunk`usage
      ensures Valid() && chunk.freeBytes == old(chunk.freeBytes) + bytes
      ensures live == if chunk.freeBytes == chunk.chunkSize && old(chunk.parent) != qInit then old(live) - {chunk}
        else old(live)
      ensures old(chunk.parent) != null && old(chunk.parent).rank < 6
      ensures chunk in live ==> MovedDown(Chain(), chunk, old(chunk.parent).rank)
    {
      var list := chunk.parent;
      var kept := list.Free(chunk, bytes, Chain(), live, list.rank);
      if !kept {
        Own(live - {chunk});
      }
    }
  }
}
