/** The tree of runs behind PoolChunk::memoryMap. Node 1 is the whole chunk; the children of node i are 2i and
    2i + 1; nodes of depth D are the pages. A node's map value is the least depth at which its subtree still
    holds a free run, D + 1 when it holds none. */
module BuddyTree {
  import opened Words

  function Depth(id: nat): nat {
    if id <= 1 then 0 else 1 + Depth(id / 2)
  }

  predicate Node(id: nat, D: nat) {
    1 <= id && Depth(id) <= D
  }

  /** y is id or lies in its subtree. */
  predicate Under(id: nat, y: nat)
    requires id >= 1
  {
    y == id || (y > id && Under(id, y / 2))
  }

  /** What updateParentsFree stores for a node whose children have depth child. */
  function Combine(l: nat, r: nat, child: nat): nat
    requires child >= 1
  {
    if l == child && r == child then child - 1 else Min(l, r)
  }

  /** The map value of one node fits the values of its children. */
  ghost predicate LocallyCoherent(m: seq<nat>, A: set<nat>, D: nat, id: nat)
    requires Node(id, D) && |m| == Pow2(D + 1)
  {
    NodeBounds(id, D);
    if id in A then m[id] == D + 1
    else if Depth(id) == D then m[id] == D
    else ChildBounds(id, D); m[id] == Combine(m[2 * id], m[2 * id + 1], Depth(id) + 1)
  }

  /** Nothing has happened below an allocated run since it was free. */
  ghost predicate PristineBelow(m: seq<nat>, A: set<nat>, D: nat) {
    forall a: nat, y: nat :: a in A && a >= 1 && Node(y, D) && y != a && Under(a, y) ==>
      y < |m| && m[y] == Depth(y) && y !in A
  }

  /** The map m records exactly the allocated runs A. */
  ghost predicate Coherent(m: seq<nat>, A: set<nat>, D: nat) {
    && |m| == Pow2(D + 1)
    && (forall a :: a in A ==> Node(a, D))
    && (forall id :: Node(id, D) ==> LocallyCoherent(m, A, D, id))
    && PristineBelow(m, A, D)
  }

  /** The run of the node overlaps no allocated run. */
  ghost predicate Available(A: set<nat>, id: nat)
    requires id >= 1
  {
    forall a :: a in A ==> a >= 1 && !Under(a, id) && !Under(id, a)
  }

  // ----- Arithmetic of the numbering -----

  lemma {:induction false} DepthBounds(id: nat)
    requires id >= 1
    ensures Pow2(Depth(id)) <= id < Pow2(Depth(id) + 1)
  {
    if id > 1 {
      DepthBounds(id / 2);
    }
  }

  lemma {:induction false} DepthOf(id: nat, d: nat)
    requires Pow2(d) <= id < Pow2(d + 1)
    ensures Depth(id) == d
  {
    DepthBounds(id);
    var e := Depth(id);
    if e < d {
      Pow2Monotone(e + 1, d);
    } else if e > d {
      Pow2Monotone(d + 1, e);
    }
  }

  lemma {:induction false} NodeBounds(id: nat, D: nat)
    requires Node(id, D)
    ensures id < Pow2(D + 1) && (Depth(id) == D <==> id >= Pow2(D))
  {
    DepthBounds(id);
    Pow2Monotone(Depth(id) + 1, D + 1);
    if Depth(id) < D {
      Pow2Monotone(Depth(id) + 1, D);
    }
  }

  lemma {:induction false} ChildBounds(id: nat, D: nat)
    requires Node(id, D) && Depth(id) < D
    ensures Node(2 * id, D) && Node(2 * id + 1, D)
    ensures Depth(2 * id) == Depth(id) + 1 == Depth(2 * id + 1)
    ensures 2 * id + 1 < Pow2(D + 1)
  {
    NodeBounds(id, D);
    assert (2 * id + 1) / 2 == id;
    NodeBounds(2 * id + 1, D);
  }

  lemma {:induction false} UnderDepth(id: nat, y: nat)
    requires id >= 1 && Under(id, y)
    ensures Depth(id) <= Depth(y) && (y != id ==> Depth(id) < Depth(y))
  {
    if y != id {
      UnderDepth(id, y / 2);
    }
  }

  lemma {:induction false} UnderTransitive(a: nat, b: nat, c: nat)
    requires a >= 1 && b >= 1 && Under(a, b) && Under(b, c)
    ensures Under(a, c)
  {
    if c != b {
      UnderTransitive(a, b, c / 2);
    }
  }

  /** Two nodes above the same one are above one another. */
  lemma {:induction false} UnderChain(a: nat, b: nat, y: nat)
    requires a >= 1 && b >= 1 && Under(a, y) && Under(b, y) && a <= b
    ensures Under(a, b)
  {
    if y != b {
      if y != a {
        UnderChain(a, b, y / 2);
      }
    }
  }

  lemma {:induction false} RootAbove(y: nat)
    requires y >= 1
    ensures Under(1, y)
  {
    if y > 1 {
      RootAbove(y / 2);
    }
  }

  /** What lies strictly under a node lies under one of its children. */
  lemma {:induction false} UnderChild(id: nat, y: nat)
    requires id >= 1 && Under(id, y) && y != id
    ensures Under(2 * id, y) || Under(2 * id + 1, y)
  {
    if y / 2 != id {
      UnderChild(id, y / 2);
    }
  }

  // ----- What the values mean -----

  lemma ValueRange(m: seq<nat>, A: set<nat>, D: nat, id: nat)
    requires Coherent(m, A, D) && Node(id, D)
    ensures id < |m| && Depth(id) <= m[id] <= D + 1
  {
    ClimbRange(m, A, D, 1, id);
  }

  /** A node at its own depth is free throughout. */
  lemma {:induction false} FreeBelow(m: seq<nat>, A: set<nat>, D: nat, id: nat, y: nat)
    requires Coherent(m, A, D) && Node(id, D) && Node(y, D) && Under(id, y)
    requires id < |m| && m[id] == Depth(id)
    ensures y < |m| && m[y] == Depth(y) && y !in A
  {
    NodeBounds(y, D);
    if y == id {
      assert LocallyCoherent(m, A, D, id);
    } else {
      var p := y / 2;
      FreeBelow(m, A, D, id, p);
      assert Node(p, D) && Depth(p) < D;
      assert LocallyCoherent(m, A, D, p);
      ChildBounds(p, D);
      ValueRange(m, A, D, 2 * p);
      ValueRange(m, A, D, 2 * p + 1);
      assert LocallyCoherent(m, A, D, y);
    }
  }

  /** A subtree without allocated runs is at its own depth. */
  lemma {:induction false} IdleIsFree(m: seq<nat>, A: set<nat>, D: nat, id: nat)
    requires Coherent(m, A, D) && Node(id, D) && forall a :: a in A ==> !Under(id, a)
    ensures id < |m| && m[id] == Depth(id)
    decreases D - Depth(id)
  {
    NodeBounds(id, D);
    assert LocallyCoherent(m, A, D, id);
    if Depth(id) < D {
      ChildBounds(id, D);
      forall a | a in A
        ensures !Under(2 * id, a) && !Under(2 * id + 1, a)
      {
        assert Under(id, 2 * id) && Under(id, 2 * id + 1);
        if Under(2 * id, a) {
          UnderTransitive(id, 2 * id, a);
        }
        if Under(2 * id + 1, a) {
          UnderTransitive(id, 2 * id + 1, a);
        }
      }
      IdleIsFree(m, A, D, 2 * id);
      IdleIsFree(m, A, D, 2 * id + 1);
    }
  }

  /** Values only grow towards the leaves on a path that meets no allocated run. */
  lemma {:induction false} AvailableSeenAbove(m: seq<nat>, A: set<nat>, D: nat, z: nat, y: nat)
    requires Coherent(m, A, D) && Node(y, D) && z >= 1 && Under(z, y) && Available(A, y)
    ensures Node(z, D) && z < |m| && m[z] <= Depth(y) && z !in A
    decreases y - z
  {
    UnderDepth(z, y);
    NodeBounds(z, D);
    assert Under(z, y);
    if z == y {
      IdleIsFree(m, A, D, y);
      assert Under(y, y);
    } else {
      UnderChild(z, y);
      ChildBounds(z, D);
      assert LocallyCoherent(m, A, D, z);
      if Under(2 * z, y) {
        UnderLess(2 * z, y);
        AvailableSeenAbove(m, A, D, 2 * z, y);
      } else {
        UnderLess(2 * z + 1, y);
        AvailableSeenAbove(m, A, D, 2 * z + 1, y);
      }
    }
  }

  lemma UnderLess(z: nat, y: nat)
    requires z >= 1 && Under(z, y)
    ensures z <= y
  {
  }

  /** The root tells whether a run of depth d can be allocated. */
  lemma {:induction false} RootTells(m: seq<nat>, A: set<nat>, D: nat, d: nat)
    requires Coherent(m, A, D) && 1 < |m| && m[1] > d
    ensures forall y :: Node(y, D) && Depth(y) == d ==> !Available(A, y)
  {
    forall y | Node(y, D) && Depth(y) == d
      ensures !Available(A, y)
    {
      if Available(A, y) {
        RootAbove(y);
        AvailableSeenAbove(m, A, D, 1, y);
      }
    }
  }

  /** The map is determined by the set of allocated runs. */
  lemma {:induction false} MapDetermined(m: seq<nat>, m': seq<nat>, A: set<nat>, D: nat, id: nat)
    requires Coherent(m, A, D) && Coherent(m', A, D) && Node(id, D)
    ensures id < |m| == |m'| && m[id] == m'[id]
    decreases D - Depth(id)
  {
    NodeBounds(id, D);
    assert LocallyCoherent(m, A, D, id) && LocallyCoherent(m', A, D, id);
    if id !in A && Depth(id) < D {
      ChildBounds(id, D);
      MapDetermined(m, m', A, D, 2 * id);
      MapDetermined(m, m', A, D, 2 * id + 1);
    }
  }

  // ----- Updates -----

  /** Every node fits its children, except possibly the proper ancestors of cur. */
  ghost predicate ClimbInv(m: seq<nat>, A: set<nat>, D: nat, cur: nat) {
    && |m| == Pow2(D + 1) && Node(cur, D)
    && (forall a :: a in A ==> Node(a, D))
    && (forall id :: Node(id, D) && !(Under(id, cur) && id != cur) ==> LocallyCoherent(m, A, D, id))
    && PristineBelow(m, A, D)
  }

  lemma {:induction false} ClimbRange(m: seq<nat>, A: set<nat>, D: nat, cur: nat, id: nat)
    requires ClimbInv(m, A, D, cur) && Node(id, D) && !(Under(id, cur) && id != cur)
    ensures id < |m| && Depth(id) <= m[id] <= D + 1
    decreases D - Depth(id)
  {
    NodeBounds(id, D);
    assert LocallyCoherent(m, A, D, id);
    if id !in A && Depth(id) < D {
      ChildBounds(id, D);
      ClimbRangeChild(cur, id, 2 * id);
      ClimbRange(m, A, D, cur, 2 * id);
      ClimbRangeChild(cur, id, 2 * id + 1);
      ClimbRange(m, A, D, cur, 2 * id + 1);
    }
  }

  lemma ClimbRangeChild(cur: nat, id: nat, child: nat)
    requires id >= 1 && child / 2 == id && child > id && cur >= 1 && !(Under(id, cur) && id != cur)
    ensures !(Under(child, cur) && child != cur)
  {
    if Under(child, cur) && child != cur {
      assert Under(id, child);
      UnderTransitive(id, child, cur);
      UnderLess(child, cur);
    }
  }

  /** Two allocated runs are never above one another. */
  lemma Separate(m: seq<nat>, A: set<nat>, D: nat, a: nat, b: nat)
    requires Coherent(m, A, D) && a in A && b in A && a != b
    ensures a >= 1 && b >= 1 && !Under(a, b)
  {
    assert Node(a, D) && Node(b, D);
  }

  lemma AllocateStart(m: seq<nat>, A: set<nat>, D: nat, x: nat)
    requires Coherent(m, A, D) && Node(x, D) && Available(A, x)
    ensures x < |m| && ClimbInv(m[x := D + 1], A + {x}, D, x)
  {
    NodeBounds(x, D);
    IdleIsFree(m, A, D, x);
    var m', A' := m[x := D + 1], A + {x};
    forall id: nat | Node(id, D) && !(Under(id, x) && id != x)
      ensures LocallyCoherent(m', A', D, id)
    {
      NodeBounds(id, D);
      assert LocallyCoherent(m, A, D, id);
      if id !in A' && Depth(id) < D {
        ChildBounds(id, D);
        assert Under(id, 2 * id) && Under(id, 2 * id + 1);
      }
    }
    forall a: nat, y: nat | a in A' && a >= 1 && Node(y, D) && y != a && Under(a, y)
      ensures y < |m'| && m'[y] == Depth(y) && y !in A'
    {
      NodeBounds(y, D);
      if a == x {
        FreeBelow(m, A, D, x, y);
      }
    }
  }

  lemma FreeStart(m: seq<nat>, A: set<nat>, D: nat, x: nat)
    requires Coherent(m, A, D) && x in A
    ensures x < |m| && ClimbInv(m[x := Depth(x)], A - {x}, D, x)
  {
    NodeBounds(x, D);
    forall id: nat | Node(id, D) && !(Under(id, x) && id != x)
      ensures LocallyCoherent(m[x := Depth(x)], A - {x}, D, id)
    {
      FreeStartLocal(m, A, D, x, id);
    }
  }

  lemma FreeStartLocal(m: seq<nat>, A: set<nat>, D: nat, x: nat, id: nat)
    requires Coherent(m, A, D) && x in A && x < |m| && Node(id, D) && !(Under(id, x) && id != x)
    ensures LocallyCoherent(m[x := Depth(x)], A - {x}, D, id)
  {
    NodeBounds(id, D);
    assert LocallyCoherent(m, A, D, id);
    if id !in A - {x} && Depth(id) < D {
      ChildBounds(id, D);
      assert Under(id, 2 * id) && Under(id, 2 * id + 1);
    }
  }

  /** Recomputing the parent from its children moves the exception one level up. */
  lemma ClimbStep(m: seq<nat>, A: set<nat>, D: nat, cur: nat, p: nat, v: nat)
    requires ClimbInv(m, A, D, cur) && cur > 1 && p == cur / 2
    requires forall a :: a in A && a >= 1 ==> !Under(a, p)
    requires 2 * p + 1 < |m| && v == Combine(m[2 * p], m[2 * p + 1], Depth(cur))
    ensures ClimbInv(m[p := v], A, D, p)
  {
    ParentBounds(cur, D);
    var m' := m[p := v];
    forall id: nat | Node(id, D) && !(Under(id, p) && id != p)
      ensures LocallyCoherent(m', A, D, id)
    {
      ClimbLocal(m, A, D, cur, p, v, id);
    }
    forall a: nat, y: nat | a in A && a >= 1 && Node(y, D) && y != a && Under(a, y)
      ensures y < |m'| && m'[y] == Depth(y) && y !in A
    {
      NodeBounds(y, D);
      assert y != p;
    }
  }

  lemma ParentBounds(cur: nat, D: nat)
    requires Node(cur, D) && cur > 1
    ensures Node(cur / 2, D) && Depth(cur) == Depth(cur / 2) + 1 <= D && 2 * (cur / 2) + 1 < Pow2(D + 1)
  {
    ChildBounds(cur / 2, D);
    NodeBounds(cur / 2, D);
  }

  lemma ClimbLocal(m: seq<nat>, A: set<nat>, D: nat, cur: nat, p: nat, v: nat, id: nat)
    requires ClimbInv(m, A, D, cur) && cur > 1 && p == cur / 2 && p !in A
    requires 2 * p + 1 < |m| && v == Combine(m[2 * p], m[2 * p + 1], Depth(cur))
    requires Node(id, D) && !(Under(id, p) && id != p)
    ensures LocallyCoherent(m[p := v], A, D, id)
  {
    ParentBounds(cur, D);
    NodeBounds(id, D);
    if id != p {
      assert Under(id, cur) ==> id == cur;
      assert LocallyCoherent(m, A, D, id);
      if id !in A && Depth(id) < D {
        ChildBounds(id, D);
        assert Under(id, 2 * id) && Under(id, 2 * id + 1);
        assert 2 * id != p && 2 * id + 1 != p;
        var m' := m[p := v];
        assert m'[id] == m[id] && m'[2 * id] == m[2 * id] && m'[2 * id + 1] == m[2 * id + 1];
      }
    }
  }

  lemma ClimbEnd(m: seq<nat>, A: set<nat>, D: nat)
    requires ClimbInv(m, A, D, 1)
    ensures Coherent(m, A, D)
  {
  }

  // ----- Bytes -----

  /** The size of a run, with 2^L bytes in the chunk. */
  function RunBytes(id: nat, L: nat): nat
    requires Depth(id) <= L
  {
    Pow2(L - Depth(id))
  }

  /** The position of the node in its level. */
  function Position(id: nat): nat
    requires id >= 1
  {
    DepthBounds(id);
    id - Pow2(Depth(id))
  }

  /** Where the run starts. */
  function RunOffset(id: nat, L: nat): nat
    requires id >= 1 && Depth(id) <= L
  {
    Product(Position(id), RunBytes(id, L))
  }

  function Product(i: nat, n: nat): nat {
    i * n
  }

  /** The allocated bytes in the subtree of id. */
  function Used(A: set<nat>, id: nat, D: nat, L: nat): nat
    requires Node(id, D) && D <= L
    decreases D - Depth(id)
  {
    if id in A then RunBytes(id, L)
    else if Depth(id) == D then 0
    else
      ChildBounds(id, D);
      Used(A, 2 * id, D, L) + Used(A, 2 * id + 1, D, L)
  }

  lemma {:induction false} UsedAtMost(A: set<nat>, id: nat, D: nat, L: nat)
    requires Node(id, D) && D <= L
    ensures Used(A, id, D, L) <= RunBytes(id, L)
    decreases D - Depth(id)
  {
    if id !in A && Depth(id) < D {
      ChildBounds(id, D);
      UsedAtMost(A, 2 * id, D, L);
      UsedAtMost(A, 2 * id + 1, D, L);
    }
  }

  /** Under one child means not under the other. */
  lemma {:induction false} NotBoth(z: nat, x: nat)
    requires z >= 1 && Under(2 * z, x)
    ensures !Under(2 * z + 1, x)
    decreases x
  {
    if Under(2 * z + 1, x) {
      UnderChain(2 * z, 2 * z + 1, x);
    }
  }

  lemma {:induction false} UsedSame(A: set<nat>, x: nat, id: nat, D: nat, L: nat)
    requires Node(id, D) && D <= L && !Under(id, x)
    ensures Used(A + {x}, id, D, L) == Used(A, id, D, L)
    decreases D - Depth(id)
  {
    if id !in A && Depth(id) < D {
      ChildBounds(id, D);
      assert Under(id, 2 * id) && Under(id, 2 * id + 1);
      if Under(2 * id, x) {
        UnderTransitive(id, 2 * id, x);
      }
      if Under(2 * id + 1, x) {
        UnderTransitive(id, 2 * id + 1, x);
      }
      UsedSame(A, x, 2 * id, D, L);
      UsedSame(A, x, 2 * id + 1, D, L);
    }
  }

  lemma {:induction false} UsedNone(A: set<nat>, id: nat, D: nat, L: nat)
    requires Node(id, D) && D <= L && forall a :: a in A ==> !Under(id, a)
    ensures Used(A, id, D, L) == 0
    decreases D - Depth(id)
  {
    assert Under(id, id);
    if Depth(id) < D {
      ChildBounds(id, D);
      assert Under(id, 2 * id) && Under(id, 2 * id + 1);
      forall a | a in A
        ensures !Under(2 * id, a) && !Under(2 * id + 1, a)
      {
        if Under(2 * id, a) {
          UnderTransitive(id, 2 * id, a);
        }
        if Under(2 * id + 1, a) {
          UnderTransitive(id, 2 * id + 1, a);
        }
      }
      UsedNone(A, 2 * id, D, L);
      UsedNone(A, 2 * id + 1, D, L);
    }
  }

  /** Allocating an available run adds exactly its bytes. */
  lemma {:induction false} UsedAdd(A: set<nat>, x: nat, z: nat, D: nat, L: nat)
    requires Node(x, D) && D <= L && z >= 1 && Under(z, x) && Available(A, x)
    ensures Node(z, D) && Used(A + {x}, z, D, L) == Used(A, z, D, L) + RunBytes(x, L)
    decreases x - z
  {
    UnderDepth(z, x);
    UnderLess(z, x);
    if z == x {
      UsedNone(A, x, D, L);
    } else {
      assert z !in A + {x};
      UnderChild(z, x);
      ChildBounds(z, D);
      if Under(2 * z, x) {
        UnderLess(2 * z, x);
        NotBoth(z, x);
        UsedAdd(A, x, 2 * z, D, L);
        UsedSame(A, x, 2 * z + 1, D, L);
      } else {
        UnderLess(2 * z + 1, x);
        UsedAdd(A, x, 2 * z + 1, D, L);
        UsedSame(A, x, 2 * z, D, L);
      }
    }
  }

  /** Only an empty tree uses no bytes. */
  lemma {:induction false} UsedPositive(A: set<nat>, a: nat, id: nat, D: nat, L: nat)
    requires a in A && Node(a, D) && D <= L && id >= 1 && Under(id, a)
    ensures Node(id, D) && Used(A, id, D, L) > 0
    decreases a - id
  {
    UnderDepth(id, a);
    UnderLess(id, a);
    if id !in A {
      UnderChild(id, a);
      ChildBounds(id, D);
      if Under(2 * id, a) {
        UnderLess(2 * id, a);
        UsedPositive(A, a, 2 * id, D, L);
      } else {
        UnderLess(2 * id + 1, a);
        UsedPositive(A, a, 2 * id + 1, D, L);
      }
    }
  }

  lemma HalfOf(i: nat, r: nat, h: nat)
    requires r <= 1
    ensures Product(i, 2 * h) <= Product(2 * i + r, h)
    ensures Product(2 * i + r, h) + h <= Product(i, 2 * h) + 2 * h
  {
    assert (2 * i + r) * h == i * (2 * h) + r * h;
    assert r * h == if r == 0 then 0 else h;
  }

  lemma Gap(i: nat, j: nat, n: nat)
    requires i < j
    ensures Product(i, n) + n <= Product(j, n)
  {
    calc {
      Product(j, n);
      (i + 1 + (j - i - 1)) * n;
      i * n + n + (j - i - 1) * n;
      Product(i, n) + n + Product(j - i - 1, n);
    }
  }

  /** A run lies inside every run above it. */
  lemma {:induction false} RunInside(z: nat, y: nat, L: nat)
    requires z >= 1 && Under(z, y) && Depth(y) <= L
    ensures Depth(z) <= L && RunOffset(z, L) <= RunOffset(y, L)
    ensures RunOffset(y, L) + RunBytes(y, L) <= RunOffset(z, L) + RunBytes(z, L)
  {
    UnderDepth(z, y);
    if y != z {
      var p := y / 2;
      RunInside(z, p, L);
      var h, i := RunBytes(y, L), Position(p);
      assert RunBytes(p, L) == 2 * h;
      assert Position(y) == 2 * i + y % 2;
      HalfOf(i, y % 2, h);
    }
  }

  /** The ancestor of y at depth d. */
  function AncestorAt(y: nat, d: nat): (z: nat)
    requires y >= 1 && d <= Depth(y)
    ensures z >= 1 && Depth(z) == d && Under(z, y)
    decreases y
  {
    if Depth(y) == d then y else AncestorAt(y / 2, d)
  }

  lemma {:induction false} AncestorParent(y: nat, d: nat)
    requires y >= 1 && d < Depth(y)
    ensures AncestorAt(y, d + 1) / 2 == AncestorAt(y, d)
    decreases y
  {
    if Depth(y) > d + 1 {
      AncestorParent(y / 2, d);
    }
  }

  lemma {:induction false} LevelDisjoint(a: nat, b: nat, L: nat)
    requires 1 <= a < b && Depth(a) == Depth(b) <= L
    ensures RunOffset(a, L) + RunBytes(a, L) <= RunOffset(b, L)
  {
    Gap(Position(a), Position(b), RunBytes(a, L));
  }

  /** The root's run is the chunk. */
  lemma RootRun(root: nat, L: nat)
    requires root == 1
    ensures RunOffset(root, L) == 0 && RunBytes(root, L) == Pow2(L)
  {
    RootSize(root, L);
    ProductZero(Position(root), RunBytes(root, L));
  }

  lemma RootSize(root: nat, L: nat)
    requires root == 1
    ensures Depth(root) == 0 && Position(root) == 0 && RunBytes(root, L) == Pow2(L)
  {
  }

  lemma ProductZero(i: nat, n: nat)
    requires i == 0
    ensures Product(i, n) == 0
  {
  }

  /** Runs that are not above one another share no byte, and every run lies in the chunk. */
  lemma {:induction false} RunsDisjoint(a: nat, b: nat, L: nat)
    requires a >= 1 && b >= 1 && Depth(a) <= Depth(b) <= L && !Under(a, b)
    ensures RunOffset(a, L) + RunBytes(a, L) <= RunOffset(b, L) || RunOffset(b, L) + RunBytes(b, L) <= RunOffset(a, L)
  {
    var c := AncestorAt(b, Depth(a));
    RunInside(c, b, L);
    if a < c {
      LevelDisjoint(a, c, L);
    } else {
      LevelDisjoint(c, a, L);
    }
  }
}
