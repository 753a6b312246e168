/** PoolChunk: a chunk of 2^L bytes handed out in runs of whole pages through the tree in memoryMap. */
module PoolChunk {
  import opened Words
  import opened BuddyTree

  // ----- Logarithms -----

  /** word shifted left by e bits, with nothing lost. */
  function Shifted(word: nat, e: nat): nat {
    if e == 0 then word else 2 * Shifted(word, e - 1)
  }

  lemma {:induction false} ShiftBack(word: nat, e: nat, k: nat)
    requires e <= k && Pow2(k) <= Shifted(word, e) < Pow2(k + 1)
    ensures Pow2(k - e) <= word < Pow2(k + 1 - e)
  {
    if e > 0 {
      ShiftBack(word, e - 1, k - 1);
    }
  }

  lemma ShiftMore(word: nat, e: nat)
    ensures Shifted(word, e + 2) == 4 * Shifted(word, e) && Shifted(word, e + 4) == 0x10 * Shifted(word, e)
    ensures Shifted(word, e + 8) == 0x100 * Shifted(word, e) && Shifted(word, e + 16) == 0x1_0000 * Shifted(word, e)
  {
    ShiftFour(word, e);
    ShiftFour(word, e + 4);
    ShiftFour(word, e + 8);
    ShiftFour(word, e + 12);
  }

  lemma ShiftFour(word: nat, e: nat)
    ensures Shifted(word, e + 2) == 4 * Shifted(word, e) && Shifted(word, e + 4) == 0x10 * Shifted(word, e)
  {
    assert Shifted(word, e + 2) == 2 * Shifted(word, e + 1);
    assert Shifted(word, e + 3) == 2 * Shifted(word, e + 2);
  }

  lemma Below(i: int, j: int, n: int)
    requires i < j && n >= 0
    ensures i * n + n <= j * n
  {
    assert j * n == i * n + n + (j - i - 1) * n;
  }

  /** After some steps the word has been shifted left n - 1 bits and has a set bit at position low or higher. */
  ghost predicate Normalised(word: nat, n: int, i: nat, low: nat) {
    n >= 1 && i == Shifted(word, n - 1) && low <= i < 0x1_0000_0000
  }

  lemma NormaliseMore(word: nat, n: int, i: nat, low: nat)
    requires Normalised(word, n, i, low)
    ensures i < 0x1_0000 ==> Normalised(word, n + 16, i * 0x1_0000, low * 0x1_0000)
    ensures i < 0x100_0000 ==> Normalised(word, n + 8, i * 0x100, low * 0x100)
    ensures i < 0x1000_0000 ==> Normalised(word, n + 4, i * 0x10, low * 0x10)
    ensures i < 0x4000_0000 ==> Normalised(word, n + 2, i * 4, low * 4)
  {
    ShiftMore(word, n - 1);
  }

  lemma {:induction false} ShiftedBounds(word: nat, e: nat)
    requires word > 0
    ensures Shifted(word, e) >= Pow2(e)
  {
    if e > 0 {
      ShiftedBounds(word, e - 1);
    }
  }

  lemma LeadingBit(word: nat, n: int, i: nat)
    requires word > 0 && Normalised(word, n, i, 0x4000_0000)
    ensures var r := n - i / 0x8000_0000;
      0 <= r <= 31 && Pow2(31 - r) <= word < Pow2(32 - r)
  {
    Pow2Table();
    ShiftedBounds(word, n - 1);
    if n - 1 > 31 {
      Pow2Monotone(32, n - 1);
    } else if n - 1 == 31 && i < 0x8000_0000 {
      assert false;
    } else {
      ShiftBack(word, n - 1, if i < 0x8000_0000 then 30 else 31);
    }
  }

  /** Four conditional shifts locate the leading bit of a 32-bit word. */
  method NumberOfLeadingZeros(word: nat) returns (n: int)
    requires word < 0x1_0000_0000
    ensures word == 0 ==> n == 32
    ensures word > 0 ==> 0 <= n <= 31 && Pow2(31 - n) <= word < Pow2(32 - n)
  {
    if word == 0 {
      return 32;
    }
    var i := word;
    n := 1;
    assert Normalised(word, n, i, 1);
    NormaliseMore(word, n, i, 1);
    if i < 0x1_0000 {
      n, i := n + 16, i * 0x1_0000;
    }
    assert Normalised(word, n, i, 0x1_0000);
    NormaliseMore(word, n, i, 0x1_0000);
    if i < 0x100_0000 {
      n, i := n + 8, i * 0x100;
    }
    assert Normalised(word, n, i, 0x100_0000);
    NormaliseMore(word, n, i, 0x100_0000);
    if i < 0x1000_0000 {
      n, i := n + 4, i * 0x10;
    }
    assert Normalised(word, n, i, 0x1000_0000);
    NormaliseMore(word, n, i, 0x1000_0000);
    if i < 0x4000_0000 {
      n, i := n + 2, i * 4;
    }
    LeadingBit(word, n, i);
    n := n - i / 0x8000_0000;
  }

  /** The exponent of the largest power of two not above val. */
  method Log2(val: int) returns (k: nat)
    requires 0 < val <= INT_MAX
    ensures k <= 30 && Pow2(k) <= val < Pow2(k + 1)
  {
    var n := NumberOfLeadingZeros(val);
    if n == 0 {
      Pow2Table();
      assert false;
    }
    k := 31 - n;
  }

  // ----- Bits of a node number -----

  /** `id & -(1 << d)`: the number with its d low bits cleared. */
  function HighBits(id: nat, d: nat): nat {
    if d == 0 then id else 2 * HighBits(id / 2, d - 1)
  }

  lemma {:induction false} HighBitsOfSmall(id: nat, d: nat)
    requires id < Pow2(d + 1)
    ensures HighBits(id, d) == if id >= Pow2(d) then Pow2(d) else 0
  {
    if d > 0 {
      HighBitsOfSmall(id / 2, d - 1);
    }
  }

  /** The mask tells whether a node is at depth d or above it, as the comment beside the search loop says. */
  lemma HighBitsTellDepth(id: nat, d: nat)
    requires id >= 1 && Depth(id) <= d
    ensures HighBits(id, d) == if Depth(id) == d then Pow2(d) else 0
  {
    NodeBounds(id, d);
    HighBitsOfSmall(id, d);
  }

  /** `id ^ 1`. */
  function Sibling(id: nat): nat {
    if id % 2 == 0 then id + 1 else id - 1
  }

  lemma SiblingOfLeft(id: nat)
    ensures Sibling(id * 2) == 2 * id + 1
  {
  }

  /** The leftmost run of depth d that can be allocated. */
  ghost predicate Lowest(A: set<nat>, D: nat, d: nat, id: nat) {
    && Node(id, D) && Depth(id) == d && Available(A, id)
    && forall y :: Node(y, D) && Depth(y) == d && Available(A, y) ==> id <= y
  }

  /** No available run of depth d lies to the left of id's subtree. */
  ghost predicate NoneToTheLeft(A: set<nat>, D: nat, d: nat, id: nat)
    requires Node(id, D) && Depth(id) <= d
  {
    forall y :: Node(y, D) && Depth(y) == d && Available(A, y) ==> id <= AncestorAt(y, Depth(id))
  }

  /** Where the search for a run of depth d stands: the subtree of id holds one, and id's is the leftmost such
      subtree of its level. */
  ghost predicate Searching(m: seq<nat>, A: set<nat>, D: nat, d: nat, id: nat) {
    && Node(id, D) && Depth(id) <= d <= D
    && id < |m| && Depth(id) <= m[id] <= d
    && (forall a :: a in A ==> a >= 1 && !Under(a, id))
    && NoneToTheLeft(A, D, d, id)
  }

  lemma SearchStart(m: seq<nat>, A: set<nat>, D: nat, d: nat)
    requires Coherent(m, A, D) && d <= D && 1 < |m| && m[1] <= d
    ensures Searching(m, A, D, d, 1)
  {
    assert LocallyCoherent(m, A, D, 1);
    forall a | a in A
      ensures a >= 1 && !Under(a, 1)
    {
      assert Node(a, D);
    }
  }

  /** One of the children still has a small enough value. */
  lemma ChildFits(m: seq<nat>, A: set<nat>, D: nat, d: nat, id: nat)
    requires Coherent(m, A, D) && Searching(m, A, D, d, id) && Depth(id) < d
    ensures 2 * id + 1 < |m| && (m[2 * id] <= d || m[2 * id + 1] <= d)
  {
    ChildBounds(id, D);
    assert LocallyCoherent(m, A, D, id);
    assert Under(id, id);
  }

  /** Leaving out the left child for its value skips no available run. */
  lemma SearchStep(m: seq<nat>, A: set<nat>, D: nat, d: nat, id: nat, child: nat)
    requires Coherent(m, A, D) && Searching(m, A, D, d, id) && Depth(id) < d
    requires 2 * id < |m| && child == if m[2 * id] > d then 2 * id + 1 else 2 * id
    ensures Searching(m, A, D, d, child) && Depth(child) == Depth(id) + 1
  {
    ChildBounds(id, D);
    ChildFits(m, A, D, d, id);
    ValueRange(m, A, D, child);
    assert LocallyCoherent(m, A, D, child);
    assert child / 2 == id;
    NoneSkipped(m, A, D, d, id, child);
  }

  lemma NoneSkipped(m: seq<nat>, A: set<nat>, D: nat, d: nat, id: nat, child: nat)
    requires Coherent(m, A, D) && Node(id, D) && Depth(id) < d <= D && NoneToTheLeft(A, D, d, id)
    requires 2 * id < |m| && child == if m[2 * id] > d then 2 * id + 1 else 2 * id
    requires Node(child, D) && Depth(child) == Depth(id) + 1
    ensures NoneToTheLeft(A, D, d, child)
  {
    forall y | Node(y, D) && Depth(y) == d && Available(A, y)
      ensures child <= AncestorAt(y, Depth(child))
    {
      NotSkipped(m, A, D, d, id, child, y);
    }
  }

  lemma NotSkipped(m: seq<nat>, A: set<nat>, D: nat, d: nat, id: nat, child: nat, y: nat)
    requires Coherent(m, A, D) && Node(id, D) && Depth(child) == Depth(id) + 1
    requires 2 * id < |m| && child == if m[2 * id] > d then 2 * id + 1 else 2 * id
    requires Node(y, D) && Depth(y) == d && Available(A, y) && Depth(id) < d && id <= AncestorAt(y, Depth(id))
    ensures child <= AncestorAt(y, Depth(child))
  {
    AncestorParent(y, Depth(id));
    RightOf(m, A, D, id, child, y, AncestorAt(y, Depth(child)));
  }

  lemma RightOf(m: seq<nat>, A: set<nat>, D: nat, id: nat, child: nat, y: nat, above: nat)
    requires Coherent(m, A, D) && Node(y, D) && Available(A, y) && above >= 1 && Under(above, y) && above / 2 >= id >= 1
    requires 2 * id < |m| && child == if m[2 * id] > Depth(y) then 2 * id + 1 else 2 * id
    ensures child <= above
  {
    if above == 2 * id {
      AvailableSeenAbove(m, A, D, above, y);
    }
  }

  /** One step of the search. */
  lemma Descend(m: seq<nat>, A: set<nat>, D: nat, d: nat, id: nat) returns (child: nat)
    requires Coherent(m, A, D) && Searching(m, A, D, d, id) && Depth(id) < d
    ensures 2 * id + 1 < |m| && child == if m[2 * id] > d then 2 * id + 1 else 2 * id
    ensures Searching(m, A, D, d, child) && Depth(child) == Depth(id) + 1
    ensures HighBits(child, d) == if Depth(child) == d then Pow2(d) else 0
  {
    ChildFits(m, A, D, d, id);
    child := if m[2 * id] > d then 2 * id + 1 else 2 * id;
    SearchStep(m, A, D, d, id, child);
    HighBitsTellDepth(child, d);
  }

  /** A node found at its own depth is the answer. */
  lemma SearchEnd(m: seq<nat>, A: set<nat>, D: nat, id: nat)
    requires Coherent(m, A, D) && Searching(m, A, D, Depth(id), id)
    ensures Lowest(A, D, Depth(id), id)
  {
    forall a | a in A
      ensures !Under(id, a)
    {
      if Under(id, a) {
        assert Node(a, D);
        FreeBelow(m, A, D, id, a);
      }
    }
    forall y | Node(y, D) && Depth(y) == Depth(id) && Available(A, y)
      ensures id <= y
    {
      assert AncestorAt(y, Depth(id)) == y;
    }
  }

  lemma RunsApart(a: nat, b: nat, L: nat)
    requires a >= 1 && b >= 1 && Depth(a) <= L && Depth(b) <= L && !Under(a, b) && !Under(b, a)
    ensures Apart(a, b, L)
  {
    if Depth(a) <= Depth(b) {
      RunsDisjoint(a, b, L);
    } else {
      RunsDisjoint(b, a, L);
    }
  }

  /** The runs share no byte. */
  predicate Apart(a: nat, b: nat, L: nat)
    requires a >= 1 && b >= 1 && Depth(a) <= L && Depth(b) <= L
  {
    RunOffset(a, L) + RunBytes(a, L) <= RunOffset(b, L) || RunOffset(b, L) + RunBytes(b, L) <= RunOffset(a, L)
  }

  /** Two live runs occupy disjoint bytes. */
  lemma LiveRunsDisjoint(m: seq<nat>, A: set<nat>, D: nat, L: nat, a: nat, b: nat)
    requires Coherent(m, A, D) && D <= L && a in A && b in A && a != b
    ensures Node(a, D) && Node(b, D) && Apart(a, b, L)
  {
    Separate(m, A, D, a, b);
    Separate(m, A, D, b, a);
    RunsApart(a, b, L);
  }

  /** Node 2^d + i is the run at place i among the runs of its depth, counted from the start of the chunk. */
  lemma OffsetOf(d: nat, i: nat, L: nat)
    requires i < Pow2(d) && d <= L
    ensures Depth(Pow2(d) + i) == d && RunBytes(Pow2(d) + i, L) == Pow2(L - d)
    ensures RunOffset(Pow2(d) + i, L) == i * Pow2(L - d)
  {
    DepthOf(Pow2(d) + i, d);
  }

  /** A run lies inside the chunk. */
  lemma RunInChunk(id: nat, D: nat, L: nat)
    requires Node(id, D) && D <= L
    ensures 0 <= RunOffset(id, L) && RunOffset(id, L) + RunBytes(id, L) <= Pow2(L)
  {
    RootAbove(id);
    InsideRoot(1, id, L);
  }

  lemma InsideRoot(root: nat, id: nat, L: nat)
    requires root == 1 && id >= 1 && Depth(id) <= L && Under(root, id)
    ensures RunOffset(id, L) + RunBytes(id, L) <= Pow2(L)
  {
    RunInside(root, id, L);
    RootRun(root, L);
  }

  /** PoolChunk::usage on its own numbers. */
  function Usage(freeBytes: nat, chunkSize: nat): (u: nat)
    requires freeBytes <= chunkSize && chunkSize > 0
    ensures u <= 100
  {
    if freeBytes == 0 then 100
    else
      Percent(freeBytes, chunkSize);
      var freePercentage := freeBytes * 100 / chunkSize;
      if freePercentage == 0 then 99 else 100 - freePercentage
  }

  lemma Percent(f: nat, c: nat)
    requires f <= c && c > 0
    ensures 0 <= f * 100 / c <= 100 && (f == c <==> f * 100 / c == 100)
    ensures (f * 100 / c) * c <= f * 100 < (f * 100 / c) * c + c
  {
    var q, r := f * 100 / c, f * 100 % c;
    assert f * 100 == q * c + r;
    if q > 100 {
      Below(100, q, c);
    }
    if q < 100 && f == c {
      Below(q, 100, c);
    }
  }

  /** Usage is the share of used bytes in percent, rounded up, except that 100 is kept for a full chunk; so it
      is 0 only for an empty chunk. */
  lemma UsageRoundsUp(freeBytes: nat, chunkSize: nat)
    requires freeBytes <= chunkSize && chunkSize > 0
    ensures var u := Usage(freeBytes, chunkSize);
      && (u == 100 <==> freeBytes == 0)
      && (u == 0 <==> freeBytes == chunkSize)
      && (u < 99 ==> (u - 1) * chunkSize < 100 * (chunkSize - freeBytes) <= u * chunkSize)
      && (u == 99 ==> 98 * chunkSize < 100 * (chunkSize - freeBytes) < 100 * chunkSize)
  {
    if freeBytes > 0 {
      Percent(freeBytes, chunkSize);
      var q := freeBytes * 100 / chunkSize;
      assert (100 - q) * chunkSize == 100 * chunkSize - q * chunkSize;
      assert (100 - q - 1) * chunkSize == 100 * chunkSize - q * chunkSize - chunkSize;
    }
  }

  /** Fuller chunks never report a lower usage. */
  lemma UsageMonotone(f: nat, g: nat, chunkSize: nat)
    requires f <= g <= chunkSize && chunkSize > 0
    ensures Usage(g, chunkSize) <= Usage(f, chunkSize)
  {
    Percent(f, chunkSize);
    Percent(g, chunkSize);
    var p, q := f * 100 / chunkSize, g * 100 / chunkSize;
    if q < p {
      Below(q, p, chunkSize);
    }
  }

  method LogOfChunk(chunkSize: int, ghost e: nat) returns (log: nat)
    requires e <= 30 && chunkSize == Pow2(e)
    ensures log == e
  {
    Pow2Monotone(e, 30);
    Pow2Table();
    log := Log2(chunkSize);
    LogUnique(log, e, chunkSize);
  }

  /** The run has the size of the largest power of two not above bytes. */
  predicate Fits(id: nat, L: nat, bytes: nat) {
    Depth(id) <= L && RunBytes(id, L) <= bytes < 2 * RunBytes(id, L)
  }

  class PoolChunk {
    const maxOrder: nat
    const pageShifts: nat
    const log2ChunkSize: nat
    const unusable: nat
    const memoryMap: array<nat>
    const depthMap: array<nat>
    var freeBytes: int
    ghost var runs: set<nat>

    ghost predicate Shape() {
      && log2ChunkSize == pageShifts + maxOrder <= 30
      && maxOrder <= 29 && unusable == maxOrder + 1
      && memoryMap.Length == depthMap.Length == Pow2(maxOrder + 1)
      && memoryMap != depthMap
    }

    ghost predicate DepthsKnown()
      reads depthMap
      requires Shape()
    {
      forall id: nat :: 1 <= id < depthMap.Length ==> depthMap[id] == Depth(id)
    }

    /** The map records the live runs, and the free bytes are what they leave of the chunk. */
    ghost predicate Valid()
      reads this, memoryMap, depthMap
    {
      && Shape() && DepthsKnown()
      && Coherent(memoryMap[..], runs, maxOrder)
      && freeBytes == Pow2(log2ChunkSize) - Used(runs, 1, maxOrder, log2ChunkSize)
    }

    lemma FreshValid()
      requires Shape() && DepthsKnown() && Coherent(memoryMap[..], runs, maxOrder)
      requires runs == {} && freeBytes == Pow2(log2ChunkSize)
      ensures Valid()
    {
      UsedNone({}, 1, maxOrder, log2ChunkSize);
    }

    constructor (chunkSize: int, pageShifts: nat, maxOrder: nat)
      requires maxOrder <= 29 && pageShifts + maxOrder <= 30 && chunkSize == Pow2(pageShifts + maxOrder)
      ensures Valid() && fresh(memoryMap) && fresh(depthMap)
      ensures runs == {} && freeBytes == chunkSize
      ensures this.maxOrder == maxOrder && log2ChunkSize == pageShifts + maxOrder
    {
      var log := LogOfChunk(chunkSize, pageShifts + maxOrder);
      this.maxOrder, this.pageShifts, unusable := maxOrder, pageShifts, maxOrder + 1;
      freeBytes := chunkSize;
      log2ChunkSize := log;
      var size := Pow2(maxOrder) * 2;
      memoryMap := new nat[size];
      depthMap := new nat[size];
      runs := {};
      new;
      FillMaps();
      FreshValid();
    }

    ghost predicate Filled(n: nat)
      requires n <= memoryMap.Length && n <= depthMap.Length
      reads memoryMap, depthMap
    {
      forall id: nat :: 1 <= id < n ==> memoryMap[id] == depthMap[id] == Depth(id)
    }

    /** The constructor's loops: level by level, each from left to right. */
    method FillMaps()
      requires Shape()
      modifies memoryMap, depthMap
      ensures DepthsKnown() && Coherent(memoryMap[..], {}, maxOrder)
    {
      var memoryMapIndex := 1;
      var d := 0;
      while d <= maxOrder
        invariant d <= maxOrder + 1 && memoryMapIndex == Pow2(d) <= memoryMap.Length
        invariant Filled(memoryMapIndex)
      {
        Pow2Monotone(d + 1, maxOrder + 1);
        var width := Pow2(d);
        var p := 0;
        while p < width
          invariant p <= width && memoryMapIndex == width + p <= 2 * width <= memoryMap.Length
          invariant Filled(memoryMapIndex)
        {
          DepthOf(memoryMapIndex, d);
          memoryMap[memoryMapIndex] := d;
          depthMap[memoryMapIndex] := d;
          memoryMapIndex := memoryMapIndex + 1;
          p := p + 1;
        }
        d := d + 1;
      }
      FreshCoherent(memoryMap[..], maxOrder);
    }

    method SetParent(id: nat, parentId: nat, val: nat)
      requires Shape() && ClimbInv(memoryMap[..], runs, maxOrder, id) && id > 1 && parentId == id / 2
      requires forall a :: a in runs ==> a >= 1 && !Under(a, parentId)
      requires 2 * parentId + 1 < memoryMap.Length
      requires val == Combine(memoryMap[2 * parentId], memoryMap[2 * parentId + 1], Depth(id))
      modifies memoryMap
      ensures ClimbInv(memoryMap[..], runs, maxOrder, parentId) && memoryMap[parentId] == val
    {
      ClimbStep(memoryMap[..], runs, maxOrder, id, parentId, val);
      ghost var next := memoryMap[..][parentId := val];
      memoryMap[parentId] := val;
      assert memoryMap[..] == next;
    }

    /** Recomputes the parents of a run that was just taken; the two-children rule cannot apply on the way up. */
    method UpdateParentsAlloc(node: nat)
      requires Shape() && ClimbInv(memoryMap[..], runs, maxOrder, node)
      requires node < memoryMap.Length && memoryMap[node] > Depth(node)
      requires forall a :: a in runs ==> a >= 1 && !Under(a, node / 2)
      modifies memoryMap
      ensures Coherent(memoryMap[..], runs, maxOrder)
    {
      var id: nat := node;
      while id > 1
        invariant id < memoryMap.Length && ClimbInv(memoryMap[..], runs, maxOrder, id)
        invariant memoryMap[id] > Depth(id)
        invariant forall a :: a in runs ==> a >= 1 && !Under(a, id / 2)
      {
        var parentId := id / 2;
        ParentBounds(id, maxOrder);
        SiblingValues(memoryMap[..], id, parentId, Depth(id));
        var val1 := memoryMap[id];
        var val2 := memoryMap[Sibling(id)];
        var val := if val1 < val2 then val1 else val2;
        SiblingRange(memoryMap[..], runs, maxOrder, id);
        SetParent(id, parentId, val);
        id := parentId;
      }
      ClimbEnd(memoryMap[..], runs, maxOrder);
    }

    /** Recomputes the parents of a run that was just released; two free children make a free parent. */
    method UpdateParentsFree(node: nat)
      requires Shape() && DepthsKnown() && node < memoryMap.Length
      requires ClimbInv(memoryMap[..], runs, maxOrder, node)
      requires forall a :: a in runs ==> a >= 1 && !Under(a, node / 2)
      modifies memoryMap
      ensures Coherent(memoryMap[..], runs, maxOrder)
    {
      NodeBounds(node, maxOrder);
      var logChild := depthMap[node] + 1;
      var id: nat := node;
      while id > 1
        invariant id < memoryMap.Length && ClimbInv(memoryMap[..], runs, maxOrder, id)
        invariant logChild == Depth(id) + 1
        invariant forall a :: a in runs ==> a >= 1 && !Under(a, id / 2)
      {
        var parentId := id / 2;
        ParentBounds(id, maxOrder);
        SiblingValues(memoryMap[..], id, parentId, Depth(id));
        var val1 := memoryMap[id];
        var val2 := memoryMap[Sibling(id)];
        logChild := logChild - 1;
        var val := if val1 == logChild && val2 == logChild then logChild - 1 else if val1 < val2 then val1 else val2;
        SetParent(id, parentId, val);
        id := parentId;
      }
      ClimbEnd(memoryMap[..], runs, maxOrder);
    }

    /** The search of allocateNode: the leftmost available run of depth d, -1 exactly when there is none. The
        error the code raises when the search ends on a node that does not fit is never raised. */
    method FindNode(d: nat) returns (id: int)
      requires Shape() && Coherent(memoryMap[..], runs, maxOrder) && d <= maxOrder
      ensures id == -1 || id >= 1
      ensures id < 0 ==> forall y :: Node(y, maxOrder) && Depth(y) == d ==> !Available(runs, y)
      ensures id >= 0 ==> Lowest(runs, maxOrder, d, id)
    {
      ghost var m := memoryMap[..];
      var node: nat := 1;
      NodeBounds(1, maxOrder);
      var val := memoryMap[node];
      if val > d {
        RootTells(m, runs, maxOrder, d);
        return -1;
      }
      SearchStart(m, runs, maxOrder, d);
      HighBitsTellDepth(node, d);
      while val < d || HighBits(node, d) == 0
        invariant Searching(m, runs, maxOrder, d, node) && val == memoryMap[node]
        invariant HighBits(node, d) == if Depth(node) == d then Pow2(d) else 0
        decreases d - Depth(node)
      {
        ghost var child := Descend(m, runs, maxOrder, d, node);
        SiblingOfLeft(node);
        assert memoryMap[2 * node] == m[2 * node];
        node := node * 2;
        val := memoryMap[node];
        if val > d {
          node := Sibling(node);
          val := memoryMap[node];
        }
      }
      assert val == d && HighBits(node, d) == Pow2(d);
      SearchEnd(m, runs, maxOrder, node);
      id := node;
    }

    /** Takes the leftmost available run of depth d; -1 exactly when there is none. */
    method AllocateNode(d: nat) returns (id: int)
      requires Valid() && d <= maxOrder
      modifies memoryMap, this`runs
      ensures Coherent(memoryMap[..], runs, maxOrder)
      ensures id < 0 ==> id == -1 && runs == old(runs) && memoryMap[..] == old(memoryMap[..])
      ensures id < 0 ==> forall y :: Node(y, maxOrder) && Depth(y) == d ==> !Available(runs, y)
      ensures id >= 0 ==> Lowest(old(runs), maxOrder, d, id) && runs == old(runs) + {id}
    {
      id := FindNode(d);
      if id >= 0 {
        Take(id);
      }
    }

    /** Marks an available node and its ancestors. */
    method Take(node: nat)
      requires Valid() && Node(node, maxOrder) && Available(runs, node)
      modifies memoryMap, this`runs
      ensures runs == old(runs) + {node} && Coherent(memoryMap[..], runs, maxOrder)
    {
      ghost var m := memoryMap[..];
      NodeBounds(node, maxOrder);
      AllocateStart(m, runs, maxOrder, node);
      ghost var next := m[node := unusable];
      memoryMap[node] := unusable;
      runs := runs + {node};
      assert memoryMap[..] == next;
      UpdateParentsAlloc(node);
    }

    /** Allocates a run of the largest power of two not above normCapacity, which is normCapacity itself when
        that is a power of two; fails exactly when every such run overlaps a live one. */
    method AllocateRun(normCapacity: int) returns (handle: int)
      requires Valid() && Pow2(pageShifts) <= normCapacity <= Pow2(log2ChunkSize)
      modifies memoryMap, this
      ensures Valid()
      ensures handle < 0 ==> handle == -1 && runs == old(runs) && freeBytes == old(freeBytes)
      ensures handle < 0 ==> forall y | Node(y, maxOrder) && Fits(y, log2ChunkSize, normCapacity) :: !Available(runs, y)
      ensures handle >= 0 ==> Lowest(old(runs), maxOrder, Depth(handle), handle)
      ensures handle >= 0 ==> runs == old(runs) + {handle}
      ensures handle >= 0 ==> Fits(handle, log2ChunkSize, normCapacity)
      ensures handle >= 0 ==> freeBytes == old(freeBytes) - RunBytes(handle, log2ChunkSize)
    {
      var log := LogOfRun(normCapacity);
      var d := maxOrder - (log - pageShifts);
      ghost var A := runs;
      var id := AllocateNode(d);
      forall y | Node(y, maxOrder)
        ensures Fits(y, log2ChunkSize, normCapacity) <==> Depth(y) == d
      {
        FitsDepth(y, log2ChunkSize, normCapacity, log);
      }
      if id < 0 {
        return id;
      }
      UsedMore(A, id, maxOrder, log2ChunkSize);
      freeBytes := freeBytes - RunBytes(id, log2ChunkSize);
      handle := id;
    }

    method LogOfRun(normCapacity: int) returns (log: nat)
      requires Valid() && Pow2(pageShifts) <= normCapacity <= Pow2(log2ChunkSize)
      ensures pageShifts <= log <= log2ChunkSize && Pow2(log) <= normCapacity < Pow2(log + 1)
    {
      Pow2Monotone(log2ChunkSize, 30);
      Pow2Table();
      log := Log2(normCapacity);
      LogInRange(pageShifts, log, log2ChunkSize, normCapacity);
    }

    /** Releases a run: its bytes become free again and the map is the one of the remaining runs. */
    method Free(handle: nat)
      requires Valid() && handle in runs
      modifies memoryMap, this
      ensures Valid() && runs == old(runs) - {handle}
      ensures freeBytes == old(freeBytes) + RunBytes(handle, log2ChunkSize)
    {
      ghost var m, A := memoryMap[..], runs;
      NodeBounds(handle, maxOrder);
      forall a | a in A - {handle}
        ensures a >= 1 && !Under(a, handle) && !Under(handle, a)
      {
        Separate(m, A, maxOrder, a, handle);
        Separate(m, A, maxOrder, handle, a);
      }
      UsedMore(A - {handle}, handle, maxOrder, log2ChunkSize);
      assert A - {handle} + {handle} == A;
      freeBytes := freeBytes + RunBytes(handle, log2ChunkSize);
      FreeStart(m, A, maxOrder, handle);
      ghost var next := m[handle := Depth(handle)];
      memoryMap[handle] := depthMap[handle];
      runs := runs - {handle};
      assert memoryMap[..] == next;
      UpdateParentsFree(handle);
    }

    /** The usage the chunk lists sort by: 0 exactly for a chunk without live runs, 100 exactly for a full one. */
    method CurrentUsage() returns (u: nat)
      requires Valid()
      ensures u <= 100
      ensures u == 0 <==> runs == {}
      ensures u == 100 <==> freeBytes == 0
      ensures 0 <= freeBytes <= Pow2(log2ChunkSize) && u == Usage(freeBytes, Pow2(log2ChunkSize))
    {
      UsedAtMost(runs, 1, maxOrder, log2ChunkSize);
      UsageRoundsUp(freeBytes, Pow2(log2ChunkSize));
      if runs == {} {
        UsedNone(runs, 1, maxOrder, log2ChunkSize);
      } else {
        var a :| a in runs;
        RootAbove(a);
        UsedPositive(runs, a, 1, maxOrder, log2ChunkSize);
      }
      u := Usage(freeBytes, Pow2(log2ChunkSize));
    }
  }

  // ----- The largest run -----

  /** The root's value is the least depth at which a run can be allocated. */
  lemma {:induction false} RootExact(m: seq<nat>, A: set<nat>, D: nat, d: nat)
    requires Coherent(m, A, D) && d <= D && 1 < |m|
    ensures m[1] <= d <==> exists y :: Node(y, D) && Depth(y) == d && Available(A, y)
  {
    if m[1] > d {
      RootTells(m, A, D, d);
    } else {
      SearchStart(m, A, D, d);
      var y := SearchFrom(m, A, D, d, 1);
    }
  }

  lemma {:induction false} SearchFrom(m: seq<nat>, A: set<nat>, D: nat, d: nat, id: nat) returns (y: nat)
    requires Coherent(m, A, D) && Searching(m, A, D, d, id)
    ensures Lowest(A, D, d, y)
    decreases d - Depth(id)
  {
    if Depth(id) < d {
      var child := Descend(m, A, D, d, id);
      y := SearchFrom(m, A, D, d, child);
    } else {
      SearchEnd(m, A, D, id);
      y := id;
    }
  }

  /** The bytes of the largest run that can be allocated, 0 when there is none. */
  function LargestRun(m: seq<nat>, D: nat, L: nat): nat
    requires 1 < |m| && D <= L
  {
    if m[1] > D then 0 else Pow2(L - m[1])
  }

  lemma DepthOrder(L: nat, d: nat, e: nat)
    requires d <= L && e <= L
    ensures Pow2(L - d) <= Pow2(L - e) <==> e <= d
  {
    if e <= d {
      Pow2Monotone(L - d, L - e);
    } else {
      Pow2Monotone(L - e, L - d - 1);
    }
  }

  /** A run of depth d, with 2^(L - d) bytes, can be allocated exactly when the largest run is at least as large. */
  lemma LargestTells(m: seq<nat>, A: set<nat>, D: nat, L: nat, d: nat)
    requires Coherent(m, A, D) && d <= D <= L && 1 < |m|
    ensures Pow2(L - d) <= LargestRun(m, D, L) <==> exists y :: Node(y, D) && Depth(y) == d && Available(A, y)
  {
    RootExact(m, A, D, d);
    if m[1] <= D {
      DepthOrder(L, d, m[1]);
    }
  }

  /** So allocateRun serves a power of two exactly when it is not above the largest run. */
  lemma LargestServes(m: seq<nat>, A: set<nat>, D: nat, L: nat, k: nat, bytes: nat)
    requires Coherent(m, A, D) && D <= L && L - D <= k <= L && bytes == Pow2(k) && 1 < |m|
    ensures bytes <= LargestRun(m, D, L) <==> exists y :: Node(y, D) && Fits(y, L, bytes) && Available(A, y)
  {
    LargestTells(m, A, D, L, L - k);
    forall y | Node(y, D)
      ensures Fits(y, L, bytes) <==> Depth(y) == L - k
    {
      FitsDepth(y, L, bytes, k);
    }
  }

  /** The largest run is part of the free bytes. */
  lemma LargestIsFree(m: seq<nat>, A: set<nat>, D: nat, L: nat, root: nat)
    requires Coherent(m, A, D) && D <= L && root == 1 < |m|
    ensures LargestRun(m, D, L) + Used(A, root, D, L) <= Pow2(L)
  {
    if m[1] <= D {
      SearchStart(m, A, D, m[1]);
      var y := SearchFrom(m, A, D, m[1], root);
      RunIsFree(A, D, L, y, root);
    } else {
      UsedAtMost(A, root, D, L);
      RootSize(root, L);
    }
  }

  lemma RunIsFree(A: set<nat>, D: nat, L: nat, y: nat, root: nat)
    requires Node(y, D) && D <= L && Available(A, y) && root == 1
    ensures RunBytes(y, L) + Used(A, root, D, L) <= Pow2(L)
  {
    UsedMore(A, y, D, L);
    UsedAtMost(A + {y}, root, D, L);
    RootSize(root, L);
  }

  /** The largest run of an empty chunk is the whole chunk. */
  lemma LargestOfEmpty(m: seq<nat>, A: set<nat>, D: nat, L: nat, root: nat)
    requires Coherent(m, A, D) && A == {} && D <= L && root == 1 < |m|
    ensures LargestRun(m, D, L) == Pow2(L)
  {
    IdleIsFree(m, A, D, root);
  }

  /** Taking runs never makes the largest run larger, and giving them back never makes it smaller. */
  lemma LargestMonotone(m: seq<nat>, A: set<nat>, m': seq<nat>, A': set<nat>, D: nat, L: nat)
    requires Coherent(m, A, D) && Coherent(m', A', D) && A <= A' && D <= L && 1 < |m| == |m'|
    ensures LargestRun(m', D, L) <= LargestRun(m, D, L)
  {
    if m'[1] <= D {
      RootExact(m', A', D, m'[1]);
      RootExact(m, A, D, m'[1]);
      DepthOrder(L, m'[1], m[1]);
    }
  }

  lemma FreshCoherent(m: seq<nat>, D: nat)
    requires |m| == Pow2(D + 1)
    requires forall id: nat :: 1 <= id < |m| ==> m[id] == Depth(id)
    ensures Coherent(m, {}, D)
  {
    forall id: nat | Node(id, D)
      ensures LocallyCoherent(m, {}, D, id)
    {
      NodeBounds(id, D);
      if Depth(id) < D {
        ChildBounds(id, D);
      }
    }
  }

  /** A parent is recomputed from a node and its sibling, in either order. */
  lemma SiblingValues(m: seq<nat>, id: nat, p: nat, depth: nat)
    requires id > 1 && p == id / 2 && 2 * p + 1 < |m| && depth >= 1
    ensures id < |m| && Sibling(id) < |m|
    ensures Combine(m[2 * p], m[2 * p + 1], depth) == Combine(m[id], m[Sibling(id)], depth)
  {
    assert id == 2 * p || id == 2 * p + 1;
  }

  lemma SiblingRange(m: seq<nat>, A: set<nat>, D: nat, id: nat)
    requires ClimbInv(m, A, D, id) && id > 1
    ensures Node(Sibling(id), D) && Sibling(id) < |m| && Depth(id) <= m[Sibling(id)]
  {
    ParentBounds(id, D);
    ChildBounds(id / 2, D);
    assert id == 2 * (id / 2) || id == 2 * (id / 2) + 1;
    assert Sibling(id) / 2 == id / 2;
    if Under(Sibling(id), id) {
      UnderDepth(Sibling(id), id);
    }
    ClimbRange(m, A, D, id, Sibling(id));
  }

  lemma LogInRange(low: nat, log: nat, high: nat, val: nat)
    requires Pow2(low) <= val <= Pow2(high) && Pow2(log) <= val < Pow2(log + 1)
    ensures low <= log <= high
  {
    if log < low {
      Pow2Monotone(log + 1, low);
    } else if log > high {
      Pow2Monotone(high + 1, log);
    }
  }

  lemma FitsDepth(y: nat, L: nat, bytes: nat, log: nat)
    requires Depth(y) <= L && log <= L && Pow2(log) <= bytes < Pow2(log + 1)
    ensures Fits(y, L, bytes) <==> Depth(y) == L - log
  {
    if Fits(y, L, bytes) {
      LogUnique(log, L - Depth(y), bytes);
    }
  }

  lemma UsedMore(A: set<nat>, id: nat, D: nat, L: nat)
    requires Node(id, D) && D <= L && Available(A, id)
    ensures Used(A + {id}, 1, D, L) == Used(A, 1, D, L) + RunBytes(id, L)
  {
    RootAbove(id);
    UsedAdd(A, id, 1, D, L);
  }

  lemma LogUnique(k: nat, e: nat, val: nat)
    requires Pow2(k) <= val < Pow2(k + 1) && Pow2(e) <= val < Pow2(e + 1)
    ensures k == e
  {
    if e < k {
      Pow2Monotone(e + 1, k);
    } else if e > k {
      Pow2Monotone(k + 1, e);
    }
  }
}
