/** DefaultChannelPipeline: a doubly linked chain of handler contexts between a head and a tail. */
module ChannelPipeline {
  import opened Sequences
  import opened Words

  // ----- Suffixes of generated names -----

  function Digit(d: nat): char
    requires d < 10
  {
    '0' + d as char
  }

  /** A number as format's %d prints it. */
  function Decimal(n: nat): (s: string)
    ensures |s| >= 1
  {
    if n < 10 then [Digit(n)] else Decimal(n / 10) + [Digit(n % 10)]
  }

  /** The number that a string of digits denotes. */
  function Parsed(s: string): nat
    requires forall i :: 0 <= i < |s| ==> '0' <= s[i] <= '9'
  {
    if s == "" then 0 else 10 * Parsed(s[..|s| - 1]) + (s[|s| - 1] - '0') as nat
  }

  /** Decimal prints digits that denote the number, without a leading zero. */
  lemma {:induction false} DecimalDenotes(n: nat)
    ensures forall i :: 0 <= i < |Decimal(n)| ==> '0' <= Decimal(n)[i] <= '9'
    ensures Parsed(Decimal(n)) == n
    ensures Decimal(n)[0] == '0' <==> n == 0
  {
    if n >= 10 {
      DecimalDenotes(n / 10);
      assert Decimal(n)[..|Decimal(n)| - 1] == Decimal(n / 10);
    } else {
      assert Decimal(n)[..0] == "";
    }
  }

  lemma {:induction false} DecimalInjective(m: nat, n: nat)
    requires Decimal(m) == Decimal(n)
    ensures m == n
  {
    var s, t := Decimal(m), Decimal(n);
    assert |s| == if m < 10 then 1 else |Decimal(m / 10)| + 1;
    assert |t| == if n < 10 then 1 else |Decimal(n / 10)| + 1;
    assert s[|s| - 1] == Digit(m % 10) && t[|t| - 1] == Digit(n % 10);
    if m >= 10 && n >= 10 {
      assert s[..|s| - 1] == Decimal(m / 10) && t[..|t| - 1] == Decimal(n / 10);
      DecimalInjective(m / 10, n / 10);
    }
  }

  lemma SuffixInjective(base: string, m: nat, n: nat)
    requires base + Decimal(m) == base + Decimal(n)
    ensures m == n
  {
    assert (base + Decimal(m))[|base|..] == Decimal(m);
    assert (base + Decimal(n))[|base|..] == Decimal(n);
    DecimalInjective(m, n);
  }

  ghost function Suffixed(base: string, n: nat): set<string> {
    if n == 0 then {} else Suffixed(base, n - 1) + {base + Decimal(n - 1)}
  }

  lemma {:induction false} SuffixedBelow(base: string, n: nat, name: string)
    requires name in Suffixed(base, n)
    ensures exists k: nat :: k < n && name == base + Decimal(k)
  {
    if name != base + Decimal(n - 1) {
      SuffixedBelow(base, n - 1, name);
    }
  }

  lemma {:induction false} SuffixedCount(base: string, n: nat)
    ensures |Suffixed(base, n)| == n
  {
    if n > 0 {
      SuffixedCount(base, n - 1);
      if base + Decimal(n - 1) in Suffixed(base, n - 1) {
        SuffixedBelow(base, n - 1, base + Decimal(n - 1));
        var k: nat :| k < n - 1 && base + Decimal(n - 1) == base + Decimal(k);
        SuffixInjective(base, n - 1, k);
      }
    }
  }

  lemma {:induction false} SuffixedWithin(base: string, n: nat, taken: set<string>)
    requires forall k: nat :: k < n ==> base + Decimal(k) in taken
    ensures Suffixed(base, n) <= taken
  {
    if n > 0 {
      SuffixedWithin(base, n - 1, taken);
    }
  }

  /** More suffixes than names cannot all be taken. */
  lemma Pigeonhole(base: string, n: nat, taken: set<string>)
    requires forall k: nat :: k < n ==> base + Decimal(k) in taken
    ensures n <= |taken|
  {
    SuffixedWithin(base, n, taken);
    SuffixedCount(base, n);
    SubsetSmaller(Suffixed(base, n), taken);
  }

  lemma {:induction false} SubsetSmaller<T>(a: set<T>, b: set<T>)
    requires a <= b
    ensures |a| <= |b|
  {
    if a != {} {
      var x :| x in a;
      SubsetSmaller(a - {x}, b - {x});
    }
  }

  // ----- Contexts -----

  type Handler = nat

  class Context {
    const name: string
    const handler: Handler
    const inbound: bool
    const outbound: bool
    var next: Context?
    var prev: Context?

    constructor (name: string, handler: Handler, inbound: bool, outbound: bool)
      ensures this.name == name && this.handler == handler && this.inbound == inbound && this.outbound == outbound
      ensures next == null && prev == null
    {
      this.name, this.handler, this.inbound, this.outbound := name, handler, inbound, outbound;
      next, prev := null, null;
    }
  }

  /** The context at a position, null beyond either end. */
  ghost function At(s: seq<Context>, i: int): Context? {
    if 0 <= i < |s| then s[i] else null
  }

  lemma NamesWithout(s: seq<Context>, p: nat)
    requires 1 <= p < |s| && NamesDistinct(s)
    ensures NamesDistinct(Without(s, p))
  {
  }

  /** s with one more context before the last. */
  ghost function Extended(s: seq<Context>, ctx: Context): (t: seq<Context>)
    requires s != []
    ensures |t| == |s| + 1 && t[|s| - 1] == ctx && t[|s|] == s[|s| - 1]
    ensures forall i :: 0 <= i < |s| - 1 ==> t[i] == s[i]
  {
    s[..|s| - 1] + [ctx, s[|s| - 1]]
  }

  lemma DistinctExtended(s: seq<Context>, ctx: Context)
    requires |s| >= 2 && Distinct(s) && ctx !in s && NamesDistinct(s) && ctx.name !in Names(s)
    ensures Distinct(Extended(s, ctx)) && Elems(Extended(s, ctx)) == Elems(s) + {ctx}
    ensures NamesDistinct(Extended(s, ctx))
  {
    var t := Extended(s, ctx);
    assert forall c :: c in t <==> c in s || c == ctx;
  }

  /** next and prev lead from one context to its neighbours. */
  ghost predicate Links(s: seq<Context>)
    reads s
  {
    && (forall i {:trigger s[i].next} :: 0 <= i < |s| ==> s[i].next == At(s, i + 1))
    && (forall i {:trigger s[i].prev} :: 0 <= i < |s| ==> s[i].prev == At(s, i - 1))
  }

  /** A context is linked in before the last. */
  lemma LinksExtended(s: seq<Context>, ctx: Context)
    requires |s| >= 2
    requires forall i {:trigger s[i].next} :: 0 <= i < |s| && i != |s| - 2 ==> s[i].next == At(s, i + 1)
    requires forall i {:trigger s[i].prev} :: 0 <= i < |s| - 1 ==> s[i].prev == At(s, i - 1)
    requires s[|s| - 2].next == ctx && ctx.next == s[|s| - 1] && ctx.prev == s[|s| - 2] && s[|s| - 1].prev == ctx
    ensures Links(Extended(s, ctx))
  {
    var t := Extended(s, ctx);
    assert forall i :: 0 <= i < |s| - 1 ==> t[i] == s[i];
  }

  /** The neighbours of a context are linked to one another. */
  lemma LinksWithout(s: seq<Context>, p: nat)
    requires 1 <= p < |s| - 1
    requires forall i {:trigger s[i].next} :: 0 <= i < |s| && i != p - 1 && i != p ==> s[i].next == At(s, i + 1)
    requires forall i {:trigger s[i].prev} :: 0 <= i < |s| && i != p + 1 && i != p ==> s[i].prev == At(s, i - 1)
    requires s[p - 1].next == s[p + 1] && s[p + 1].prev == s[p - 1]
    ensures Links(Without(s, p))
  {
    var t := Without(s, p);
    forall i | 0 <= i < |t|
      ensures t[i].next == At(t, i + 1) && t[i].prev == At(t, i - 1)
    {
      assert t[i] == s[if i < p then i else i + 1];
    }
  }

  /** The names that a search sees: it starts after the head. */
  ghost function Names(s: seq<Context>): set<string> {
    set i | 1 <= i < |s| :: s[i].name
  }

  lemma {:induction false} NamesCount(s: seq<Context>)
    requires |s| >= 1
    ensures |Names(s)| < |s|
  {
    if |s| == 1 {
      assert Names(s) == {};
    } else {
      var t := s[..|s| - 1];
      NamesCount(t);
      assert Names(s) == Names(t) + {s[|s| - 1].name};
    }
  }

  ghost predicate NamesDistinct(s: seq<Context>) {
    forall i, j :: 1 <= i < j < |s| ==> s[i].name != s[j].name
  }

  // ----- Traversal -----

  /** The inbound contexts, first first. */
  ghost function Inbounds(s: seq<Context>): seq<Context> {
    if s == [] then [] else (if s[0].inbound then [s[0]] else []) + Inbounds(s[1..])
  }

  /** The outbound contexts, last first. */
  ghost function Outbounds(s: seq<Context>): seq<Context> {
    if s == [] then []
    else (if s[|s| - 1].outbound then [s[|s| - 1]] else []) + Outbounds(s[..|s| - 1])
  }

  /** t is what s has at the given positions. */
  ghost predicate PickedAt(s: seq<Context>, t: seq<Context>, at: seq<nat>) {
    |at| == |t| && forall i :: 0 <= i < |at| ==> at[i] < |s| && s[at[i]] == t[i]
  }

  ghost predicate Ascending(at: seq<nat>) {
    forall i, j :: 0 <= i < j < |at| ==> at[i] < at[j]
  }

  ghost predicate Descending(at: seq<nat>) {
    forall i, j :: 0 <= i < j < |at| ==> at[i] > at[j]
  }

  lemma PickedBehind(s: seq<Context>, t: seq<Context>, at: seq<nat>) returns (shifted: seq<nat>)
    requires s != [] && PickedAt(s[1..], t, at) && Ascending(at)
    ensures PickedAt(s, t, shifted) && Ascending(shifted)
    ensures PickedAt(s, [s[0]] + t, [0] + shifted) && Ascending([0] + shifted)
  {
    shifted := seq(|at|, i requires 0 <= i < |at| => at[i] + 1);
  }

  /** The inbound contexts are those at all the inbound positions, in the order of the chain. */
  lemma {:induction false} InboundPositions(s: seq<Context>) returns (at: seq<nat>)
    ensures PickedAt(s, Inbounds(s), at) && Ascending(at)
    ensures forall c :: c in s && c.inbound ==> c in Inbounds(s)
    ensures forall c :: c in Inbounds(s) ==> c.inbound
  {
    at := [];
    if s != [] {
      var rest := InboundPositions(s[1..]);
      var shifted := PickedBehind(s, Inbounds(s[1..]), rest);
      at := if s[0].inbound then [0] + shifted else shifted;
    }
  }

  /** The outbound contexts are those at all the outbound positions, against the order of the chain. */
  lemma {:induction false} OutboundPositions(s: seq<Context>) returns (at: seq<nat>)
    ensures PickedAt(s, Outbounds(s), at) && Descending(at)
    ensures forall c :: c in s && c.outbound ==> c in Outbounds(s)
    ensures forall c :: c in Outbounds(s) ==> c.outbound
  {
    at := [];
    if s != [] {
      var n := |s| - 1;
      var rest := OutboundPositions(s[..n]);
      PickedBefore(s, Outbounds(s[..n]), rest);
      at := if s[n].outbound then [n] + rest else rest;
    }
  }

  lemma PickedBefore(s: seq<Context>, t: seq<Context>, at: seq<nat>)
    requires s != [] && PickedAt(s[..|s| - 1], t, at) && Descending(at)
    ensures PickedAt(s, t, at)
    ensures PickedAt(s, [s[|s| - 1]] + t, [|s| - 1] + at) && Descending([|s| - 1] + at)
  {
  }

  lemma {:induction false} SkipInbound(s: seq<Context>, start: nat, hit: nat)
    requires start <= hit < |s| && s[hit].inbound && forall k :: start <= k < hit ==> !s[k].inbound
    ensures Inbounds(s[start..]) == [s[hit]] + Inbounds(s[hit + 1..])
    decreases hit - start
  {
    if start < hit {
      assert s[start..][1..] == s[start + 1..];
      SkipInbound(s, start + 1, hit);
    } else {
      assert s[hit..][1..] == s[hit + 1..];
    }
  }

  lemma {:induction false} SkipOutbound(s: seq<Context>, start: nat, hit: nat)
    requires hit <= start < |s| && s[hit].outbound && forall k :: hit < k <= start ==> !s[k].outbound
    ensures Outbounds(s[..start + 1]) == [s[hit]] + Outbounds(s[..hit])
    decreases start - hit
  {
    assert s[..start + 1][..start] == s[..start];
    if hit < start {
      SkipOutbound(s, start - 1, hit);
    }
  }

  lemma InboundStep(s: seq<Context>, visited: seq<Context>, p: nat, q: nat)
    requires p < q < |s| && s[q].inbound && forall k :: p < k < q ==> !s[k].inbound
    requires visited + Inbounds(s[p + 1..]) == Inbounds(s)
    ensures visited + [s[q]] + Inbounds(s[q + 1..]) == Inbounds(s)
  {
    SkipInbound(s, p + 1, q);
    assert visited + ([s[q]] + Inbounds(s[q + 1..])) == visited + [s[q]] + Inbounds(s[q + 1..]);
  }

  lemma OutboundStep(s: seq<Context>, visited: seq<Context>, p: nat, q: nat)
    requires q < p < |s| && s[q].outbound && forall k :: q < k < p ==> !s[k].outbound
    requires visited + Outbounds(s[..p]) == Outbounds(s)
    ensures visited + [s[q]] + Outbounds(s[..q]) == Outbounds(s)
  {
    SkipOutbound(s, p - 1, q);
    assert visited + ([s[q]] + Outbounds(s[..q])) == visited + [s[q]] + Outbounds(s[..q]);
  }

  // ----- Names -----

  /** The per-thread cache of generated names. */
  class NameCache {
    var names: map<string, string>

    constructor ()
      ensures names == map[]
    {
      names := map[];
    }
  }

  /** The least number whose suffix gives a free name. */
  ghost predicate LeastFree(base: string, taken: set<string>, name: string) {
    exists i: nat ::
      name == base + Decimal(i) && name !in taken && forall k: nat :: k < i ==> base + Decimal(k) in taken
  }

  /** What generateName returns. When the type is already in the cache the name it starts from is empty, as the
      cached name is found but never read. */
  ghost predicate IsGenerated(name: string, handlerType: string, cached: bool, taken: set<string>) {
    var first := if cached then "" else handlerType + "#0";
    var base := if cached then "" else handlerType + "#";
    if first !in taken then name == first else LeastFree(base, taken, name)
  }

  /** A generated name is free, and begins with the handler's type exactly when the type was not in the cache. */
  lemma GeneratedName(name: string, handlerType: string, cached: bool, taken: set<string>)
    requires IsGenerated(name, handlerType, cached, taken)
    ensures name !in taken
    ensures handlerType + "#" <= name <==> !cached
  {
    var first, base := if cached then "" else handlerType + "#0", if cached then "" else handlerType + "#";
    if first in taken {
      var i: nat :| name == base + Decimal(i);
      DecimalDigits(i);
    }
    HasMark(handlerType, name);
  }

  lemma HasMark(handlerType: string, name: string)
    ensures handlerType + "#" <= name ==> '#' in name
  {
    if handlerType + "#" <= name {
      assert name[|handlerType|] == '#';
    }
  }

  lemma {:induction false} DecimalDigits(n: nat)
    ensures '#' !in Decimal(n)
  {
    if n >= 10 {
      DecimalDigits(n / 10);
    }
  }

  /** Unnamed handlers of one type get their type's name once, then the empty name, then bare numbers. */
  lemma UnnamedHandlers(handlerType: string, taken: set<string>, a: string, b: string, c: string)
    requires handlerType + "#0" !in taken && "" !in taken && "0" !in taken
    requires IsGenerated(a, handlerType, false, taken)
    requires IsGenerated(b, handlerType, true, taken + {a})
    requires IsGenerated(c, handlerType, true, taken + {a, b})
    ensures a == handlerType + "#0" && b == "" && c == "0"
  {
    assert |a| >= 2;
    assert Decimal(0) == "0" && "" + Decimal(0) == "0";
    var i: nat :| c == "" + Decimal(i) && forall k: nat :: k < i ==> "" + Decimal(k) in taken + {a, b};
    assert "" + Decimal(0) !in taken + {a, b};
  }

  datatype Removal = Removed | Absent | Crash

  class DefaultChannelPipeline {
    const head: Context
    const tail: Context
    ghost var ctxs: seq<Context>
    ghost var elems: set<Context>

    /** A chain from head to tail in which next and prev are inverse; only the head may share a name. */
    ghost predicate Valid()
      reads this, elems
    {
      && elems == Elems(ctxs) && Distinct(ctxs)
      && |ctxs| >= 2 && ctxs[0] == head && ctxs[|ctxs| - 1] == tail
      && Links(ctxs) && NamesDistinct(ctxs)
      && head.inbound && head.outbound && tail.inbound && !tail.outbound
    }

    constructor (headType: string, tailType: string, headHandler: Handler, tailHandler: Handler)
      ensures Valid() && ctxs == [head, tail] && fresh(head) && fresh(tail)
      ensures head.name == headType + "#0" && tail.name == tailType + "#0"
      ensures head.handler == headHandler && tail.handler == tailHandler
    {
      var h := new Context(headType + "#0", headHandler, true, true);
      var t := new Context(tailType + "#0", tailHandler, true, false);
      head, tail := h, t;
      ctxs, elems := [h, t], {h, t};
      new;
      head.next := tail;
      tail.prev := head;
    }

    /** Links the context in before the tail. */
    method AddLast0(ctx: Context)
      requires Valid() && ctx !in elems && ctx.name !in Names(ctxs)
      modifies this`ctxs, this`elems, elems, ctx
      ensures Valid() && ctxs == Extended(old(ctxs), ctx) && elems == old(elems) + {ctx}
    {
      ghost var s := ctxs;
      ghost var n := |s| - 1;
      assert s[n].prev == s[n - 1];
      var prev := tail.prev;
      ctx.prev := prev;
      ctx.next := tail;
      prev.next := ctx;
      tail.prev := ctx;
      ghost var t := Extended(s, ctx);
      DistinctExtended(s, ctx);
      LinksExtended(s, ctx);
      ctxs, elems := t, elems + {ctx};
    }

    /** The first context after the head with the name, the tail included. */
    method ContextByName(name: string) returns (ctx: Context?, ghost p: nat)
      requires Valid()
      ensures ctx == null <==> name !in Names(ctxs)
      ensures ctx != null ==> 1 <= p < |ctxs| && ctx == ctxs[p] && ctx.name == name
    {
      assert head.next == At(ctxs, 1);
      ctx, p := head.next, 1;
      while ctx != null
        invariant 1 <= p <= |ctxs| && ctx == At(ctxs, p)
        invariant forall k :: 1 <= k < p ==> ctxs[k].name != name
        decreases |ctxs| - p
      {
        if ctx.name == name {
          return;
        }
        assert ctxs[p].next == At(ctxs, p + 1);
        ctx, p := ctx.next, p + 1;
      }
    }

    method ContextByHandler(handler: Handler) returns (ctx: Context?, ghost p: nat)
      requires Valid()
      ensures ctx == null <==> forall k :: 1 <= k < |ctxs| ==> ctxs[k].handler != handler
      ensures ctx != null ==> 1 <= p < |ctxs| && ctx == ctxs[p] && ctx.handler == handler
      ensures ctx != null ==> forall k :: 1 <= k < p ==> ctxs[k].handler != handler
    {
      assert head.next == At(ctxs, 1);
      ctx, p := head.next, 1;
      while ctx != null
        invariant 1 <= p <= |ctxs| && ctx == At(ctxs, p)
        invariant forall k :: 1 <= k < p ==> ctxs[k].handler != handler
        decreases |ctxs| - p
      {
        if ctx.handler == handler {
          return;
        }
        assert ctxs[p].next == At(ctxs, p + 1);
        ctx, p := ctx.next, p + 1;
      }
    }

    /** The unbounded search for a suffix ends, as the pipeline holds finitely many names. */
    method FreeSuffix(baseName: string) returns (name: string)
      requires Valid()
      ensures LeastFree(baseName, Names(ctxs), name)
    {
      NamesCount(ctxs);
      var i := 0;
      while true
        invariant forall k: nat :: k < i ==> baseName + Decimal(k) in Names(ctxs)
        decreases |ctxs| - i
      {
        Pigeonhole(baseName, i, Names(ctxs));
        name := baseName + Decimal(i);
        var ctx, found := ContextByName(name);
        if ctx == null {
          return;
        }
        i := i + 1;
      }
    }

    method GenerateName(handlerType: string, cache: NameCache) returns (name: string)
      requires Valid()
      modifies cache
      ensures IsGenerated(name, handlerType, handlerType in old(cache.names), Names(ctxs))
      ensures handlerType !in old(cache.names) && handlerType + "#0" !in Names(ctxs) ==> name == handlerType + "#0"
      ensures handlerType !in old(cache.names) && handlerType + "#0" in Names(ctxs) ==>
        LeastFree(handlerType + "#", Names(ctxs), name)
      ensures handlerType in old(cache.names) && "" !in Names(ctxs) ==> name == ""
      ensures handlerType in old(cache.names) && "" in Names(ctxs) ==> LeastFree("", Names(ctxs), name)
      ensures handlerType + "#" <= name <==> handlerType !in old(cache.names)
      ensures cache.names == if handlerType in old(cache.names) then old(cache.names)
        else old(cache.names)[handlerType := handlerType + "#0"]
    {
      name := "";
      if handlerType !in cache.names {
        name := handlerType + "#0";
        cache.names := cache.names[handlerType := name];
      }
      var ctx: Context?;
      ghost var found: nat;
      ctx, found := ContextByName(name);
      if ctx != null {
        var baseName := if |name| == 0 then "" else name[..|name| - 1];
        assert baseName == if name == "" then "" else handlerType + "#";
        name := FreeSuffix(baseName);
      }
      GeneratedName(name, handlerType, handlerType in old(cache.names), Names(ctxs));
    }

    /** Appends a handler under the name given, or under a generated one; a name in use is refused. */
    method AddLast(name: string, handler: Handler, handlerType: string, inbound: bool, outbound: bool, cache: NameCache)
      returns (done: bool)
      requires Valid()
      modifies this`ctxs, this`elems, elems, cache
      ensures Valid() && fresh(elems - old(elems))
      ensures done <==> name == "" || name !in Names(old(ctxs))
      ensures !done ==> ctxs == old(ctxs) && cache.names == old(cache.names)
      ensures done ==> |ctxs| >= 2 && ctxs == Extended(old(ctxs), ctxs[|ctxs| - 2])
      ensures done ==> var ctx := ctxs[|ctxs| - 2];
        ctx.handler == handler && ctx.inbound == inbound && ctx.outbound == outbound && ctx.name !in Names(old(ctxs))
      ensures done && name != "" ==> ctxs[|ctxs| - 2].name == name && cache.names == old(cache.names)
      ensures done && name == "" ==>
        IsGenerated(ctxs[|ctxs| - 2].name, handlerType, handlerType in old(cache.names), Names(old(ctxs)))
      ensures done && name == "" ==> handlerType in cache.names
    {
      var chosen := name;
      if name == "" {
        chosen := GenerateName(handlerType, cache);
      } else {
        var ctx: Context?;
        ghost var found: nat;
        ctx, found := ContextByName(name);
        if ctx != null {
          return false;
        }
      }
      var newCtx := new Context(chosen, handler, inbound, outbound);
      AddLast0(newCtx);
      done := true;
    }

    /** Unlinks the context at position p, which must have a neighbour on each side. */
    method Remove0(ctx: Context, ghost p: nat)
      requires Valid() && 1 <= p < |ctxs| - 1 && ctxs[p] == ctx
      modifies this`ctxs, this`elems, elems
      ensures Valid() && ctxs == Without(old(ctxs), p) && elems == old(elems) - {ctx}
    {
      ghost var s := ctxs;
      assert ctx.next == At(s, p + 1) && ctx.prev == At(s, p - 1);
      var prev := ctx.prev;
      var next := ctx.next;
      prev.next := next;
      next.prev := prev;
      DistinctWithout(s, p);
      NamesWithout(s, p);
      LinksWithout(s, p);
      ctxs, elems := Without(s, p), elems - {ctx};
    }

    /** Removes the context with the name. The search also finds the tail, whose removal dereferences its null
        next: that call, and no other, crashes. */
    method Remove(name: string) returns (r: Removal)
      requires Valid()
      modifies this`ctxs, this`elems, elems
      ensures Valid()
      ensures r == Absent <==> name !in Names(old(ctxs))
      ensures r == Crash <==> name == tail.name
      ensures r != Removed ==> ctxs == old(ctxs)
      ensures r == Removed ==> exists p: nat | 1 <= p < |old(ctxs)| - 1 ::
        old(ctxs)[p].name == name && ctxs == Without(old(ctxs), p)
    {
      var ctx: Context?;
      ghost var p: nat;
      ctx, p := ContextByName(name);
      if ctx == null {
        return Absent;
      }
      assert ctxs[p].next == At(ctxs, p + 1);
      if ctx.next == null {
        return Crash;
      }
      Remove0(ctx, p);
      r := Removed;
    }

    /** Removes the first context after the head with the handler; the tail is only reached when no other one has it. */
    method RemoveHandler(handler: Handler) returns (r: Removal)
      requires Valid()
      modifies this`ctxs, this`elems, elems
      ensures Valid()
      ensures r == Absent <==> forall k :: 1 <= k < |old(ctxs)| ==> old(ctxs)[k].handler != handler
      ensures r == Crash <==> (tail.handler == handler && forall k :: 1 <= k < |old(ctxs)| - 1 ==>
        old(ctxs)[k].handler != handler)
      ensures r != Removed ==> ctxs == old(ctxs)
      ensures r == Removed ==> exists p: nat | 1 <= p < |old(ctxs)| - 1 ::
        old(ctxs)[p].handler == handler && ctxs == Without(old(ctxs), p)
        && forall k :: 1 <= k < p ==> old(ctxs)[k].handler != handler
    {
      var ctx: Context?;
      ghost var p: nat;
      ctx, p := ContextByHandler(handler);
      if ctx == null {
        return Absent;
      }
      assert ctxs[p].next == At(ctxs, p + 1);
      if ctx.next == null {
        return Crash;
      }
      Remove0(ctx, p);
      r := Removed;
    }

    // ----- Traversal -----

    method FindContextInbound(ctx: Context, ghost p: nat) returns (next: Context, ghost q: nat)
      requires Valid() && p < |ctxs| - 1 && ctxs[p] == ctx
      ensures p < q < |ctxs| && next == ctxs[q] && next.inbound && forall k :: p < k < q ==> !ctxs[k].inbound
    {
      assert ctxs[p].next == At(ctxs, p + 1);
      var cur := ctx.next;
      q := p + 1;
      while cur != null && !cur.inbound
        invariant p < q < |ctxs| && cur == At(ctxs, q)
        invariant forall k :: p < k < q ==> !ctxs[k].inbound
        decreases |ctxs| - q
      {
        assert ctxs[q].next == At(ctxs, q + 1);
        cur, q := cur.next, q + 1;
      }
      next := cur;
    }

    method FindContextOutbound(ctx: Context, ghost p: nat) returns (next: Context, ghost q: nat)
      requires Valid() && 1 <= p < |ctxs| && ctxs[p] == ctx
      ensures q < p && next == ctxs[q] && next.outbound && forall k :: q < k < p ==> !ctxs[k].outbound
    {
      assert ctxs[p].prev == At(ctxs, p - 1);
      var cur := ctx.prev;
      q := p - 1;
      while cur != null && !cur.outbound
        invariant q < p && cur == At(ctxs, q)
        invariant forall k :: q < k < p ==> !ctxs[k].outbound
        decreases q
      {
        assert ctxs[q].prev == At(ctxs, q - 1);
        cur, q := cur.prev, q - 1;
      }
      next := cur;
    }

    /** An inbound event, started at the head and passed on by every context in forwards. */
    method FireInbound(forwards: set<Context>) returns (visited: seq<Context>)
      requires Valid()
      ensures visited != [] && visited <= Inbounds(ctxs)
      ensures forall i :: 0 <= i < |visited| - 1 ==> visited[i] in forwards
      ensures visited == Inbounds(ctxs) || visited[|visited| - 1] !in forwards
    {
      var cur := head;
      ghost var p: nat := 0;
      visited := [head];
      SkipInbound(ctxs, 0, 0);
      assert ctxs[0..] == ctxs;
      while cur != tail && cur in forwards
        invariant p < |ctxs| && cur == ctxs[p] && visited != [] && visited[|visited| - 1] == cur
        invariant visited + Inbounds(ctxs[p + 1..]) == Inbounds(ctxs)
        invariant forall i :: 0 <= i < |visited| - 1 ==> visited[i] in forwards
        decreases |ctxs| - p
      {
        ghost var q: nat;
        cur, q := FindContextInbound(cur, p);
        InboundStep(ctxs, visited, p, q);
        p := q;
        visited := visited + [cur];
      }
      if cur == tail {
        assert ctxs[p + 1..] == [];
      }
    }

    /** An outbound event, written at the tail and passed on by every context in forwards. */
    method FireOutbound(forwards: set<Context>) returns (visited: seq<Context>)
      requires Valid()
      ensures visited != [] && visited <= Outbounds(ctxs)
      ensures forall i :: 0 <= i < |visited| - 1 ==> visited[i] in forwards
      ensures visited == Outbounds(ctxs) || visited[|visited| - 1] !in forwards
    {
      ghost var n := |ctxs| - 1;
      assert ctxs[..n + 1] == ctxs;
      var cur: Context;
      ghost var p: nat;
      cur, p := FindContextOutbound(tail, n);
      visited := [cur];
      SkipOutbound(ctxs, n, p);
      while cur != head && cur in forwards
        invariant p < |ctxs| && cur == ctxs[p] && visited != [] && visited[|visited| - 1] == cur
        invariant visited + Outbounds(ctxs[..p]) == Outbounds(ctxs)
        invariant forall i :: 0 <= i < |visited| - 1 ==> visited[i] in forwards
        decreases p
      {
        ghost var q: nat;
        cur, q := FindContextOutbound(cur, p);
        OutboundStep(ctxs, visited, p, q);
        p := q;
        visited := visited + [cur];
      }
      if cur == head {
        assert ctxs[..p] == [];
      }
    }
  }
}
