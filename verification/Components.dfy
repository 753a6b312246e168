/** The component graph of parallelCompile.py: dependencies, exclusion and what is to be compiled. */
module Components {

  type Component = string

  /** Every component with the components it depends on, as read from the makefiles. */
  type Graph = map<Component, seq<Component>>

  /** Only known components are recorded as dependencies. */
  ghost predicate Closed(g: Graph) {
    forall c, i :: c in g && 0 <= i < |g[c]| ==> g[c][i] in g
  }

  /** The graph is acyclic: the rank drops along every dependency. */
  ghost predicate Ranked(g: Graph, rank: Component -> nat) {
    forall c, i :: c in g && 0 <= i < |g[c]| ==> rank(g[c][i]) < rank(c)
  }

  /** The direct dependencies of a component. */
  function Depends(g: Graph, c: Component): (s: set<Component>) {
    if c in g then set d | d in g[c] else {}
  }

  /** The components that some component depends on. */
  ghost predicate IsDependency(g: Graph, d: Component) {
    exists c :: c in g && d in g[c]
  }

  /** Components.__init__: a component that another one needs cannot stay excluded. */
  method ExclusionRule(g: Graph, exclude: set<Component>) returns (excluded: set<Component>)
    ensures forall d :: d in excluded <==> d in exclude && !IsDependency(g, d)
  {
    excluded := exclude;
    var todo := g.Keys;
    while todo != {}
      invariant todo <= g.Keys
      invariant forall d :: d in excluded <==> d in exclude && !(exists c :: c in g.Keys - todo && d in g[c])
      decreases todo
    {
      var component :| component in todo;
      var depends := g[component];
      var i := 0;
      while i < |depends|
        invariant 0 <= i <= |depends|
        invariant forall d :: d in excluded <==>
          d in exclude && !(exists c :: c in g.Keys - todo && d in g[c]) && d !in depends[..i]
      {
        if depends[i] in excluded {
          excluded := excluded - {depends[i]};
        }
        i := i + 1;
      }
      todo := todo - {component};
      assert depends[..i] == g[component];
      assert forall c :: c in g.Keys - todo <==> c in g.Keys - todo - {component} || c == component;
    }
    assert forall d :: IsDependency(g, d) <==> exists c :: c in g.Keys - todo && d in g[c];
  }

  // ----- Everything below some components -----

  /** Each component of the path depends on the next one. */
  ghost predicate IsPath(g: Graph, path: seq<Component>) {
    forall i :: 0 <= i < |path| - 1 ==> path[i] in g && path[i + 1] in g[path[i]]
  }

  /** The path leads from one of the components, along at least one dependency, to d. */
  ghost predicate Leads(g: Graph, path: seq<Component>, componentNames: seq<Component>, d: Component) {
    |path| >= 2 && IsPath(g, path) && path[0] in componentNames && path[|path| - 1] == d
  }

  ghost predicate Below(g: Graph, componentNames: seq<Component>, d: Component) {
    exists path :: Leads(g, path, componentNames, d)
  }

  lemma DirectBelow(g: Graph, componentNames: seq<Component>, c: Component, d: Component)
    requires c in componentNames && c in g && d in g[c]
    ensures Below(g, componentNames, d)
  {
    assert Leads(g, [c, d], componentNames, d);
  }

  lemma FurtherBelow(g: Graph, componentNames: seq<Component>, c: Component, d: Component)
    requires c in componentNames && c in g && Below(g, g[c], d)
    ensures Below(g, componentNames, d)
  {
    var path :| Leads(g, path, g[c], d);
    assert Leads(g, [c] + path, componentNames, d);
  }

  /** getComponentDepends(componentNames, True): everything that a chain of dependencies leads to. */
  method GetComponentDepends(g: Graph, componentNames: seq<Component>, ghost rank: Component -> nat, ghost bound: nat)
    returns (depends: set<Component>)
    requires Ranked(g, rank)
    requires forall i :: 0 <= i < |componentNames| && componentNames[i] in g ==> rank(componentNames[i]) < bound
    ensures forall d :: d in depends <==> Below(g, componentNames, d)
    decreases bound
  {
    depends := {};
    var i := 0;
    while i < |componentNames|
      invariant 0 <= i <= |componentNames|
      invariant forall d :: d in depends <==> Below(g, componentNames[..i], d)
    {
      var component := componentNames[i];
      if component in g {
        var directDepends := g[component];
        depends := depends + set d | d in directDepends;
        if |directDepends| > 0 {
          var further := GetComponentDepends(g, directDepends, rank, rank(component));
          depends := depends + further;
        }
      }
      forall d
        ensures d in depends <==> Below(g, componentNames[..i + 1], d)
      {
        OneMoreName(g, componentNames, i, d);
        NothingBelow(g, d);
      }
      i := i + 1;
    }
    assert componentNames[..i] == componentNames;
  }

  lemma NothingBelow(g: Graph, d: Component)
    ensures !Below(g, [], d)
  {
  }

  lemma OneMoreName(g: Graph, names: seq<Component>, i: nat, d: Component)
    requires i < |names|
    ensures Below(g, names[..i + 1], d) <==>
      Below(g, names[..i], d) || (names[i] in g && (d in g[names[i]] || Below(g, g[names[i]], d)))
  {
    if Below(g, names[..i], d) {
      var path :| Leads(g, path, names[..i], d);
      assert Leads(g, path, names[..i + 1], d);
    }
    if names[i] in g {
      if d in g[names[i]] {
        DirectBelow(g, names[..i + 1], names[i], d);
      }
      if Below(g, g[names[i]], d) {
        FurtherBelow(g, names[..i + 1], names[i], d);
      }
    }
    if Below(g, names[..i + 1], d) && !Below(g, names[..i], d) {
      var path :| Leads(g, path, names[..i + 1], d);
      assert path[0] == names[i] by {
        assert path[0] in names[..i] ==> Leads(g, path, names[..i], d);
      }
      assert path[1] in g[names[i]];
      if |path| > 2 {
        assert Leads(g, path[1..], g[names[i]], d);
      }
    }
  }

  // ----- The set to be compiled -----

  /** getComponentNames: what is left of the components after exclusion. */
  function Names(g: Graph, excluded: set<Component>): set<Component> {
    g.Keys - excluded
  }

  /** The first statement of the scheduler: the requested components with everything below them, as far as
      they are not excluded, or all that are not excluded when none is requested. */
  method ToBeCompiled(g: Graph, excluded: set<Component>, requested: seq<Component>, ghost rank: Component -> nat,
      ghost bound: nat)
    returns (toBeCompiled: set<Component>)
    requires Closed(g) && Ranked(g, rank) && (forall c :: c in g ==> rank(c) < bound)
    requires forall d :: d in excluded ==> !IsDependency(g, d)
    ensures forall c :: c in toBeCompiled <==>
      c in g && c !in excluded && (requested == [] || c in requested || Below(g, requested, c))
    ensures forall c, i :: c in toBeCompiled && 0 <= i < |g[c]| ==> g[c][i] in toBeCompiled
  {
    if |requested| > 0 {
      var depends := GetComponentDepends(g, requested, rank, bound);
      toBeCompiled := ((set c | c in requested) + depends) * Names(g, excluded);
    } else {
      toBeCompiled := Names(g, excluded);
    }
    forall c, i | c in toBeCompiled && 0 <= i < |g[c]|
      ensures g[c][i] in toBeCompiled
    {
      assert IsDependency(g, g[c][i]);
      if requested != [] {
        BelowNext(g, requested, c, g[c][i]);
      }
    }
  }

  lemma BelowNext(g: Graph, requested: seq<Component>, c: Component, d: Component)
    requires c in g && d in g[c] && (c in requested || Below(g, requested, c))
    ensures Below(g, requested, d)
  {
    if c in requested {
      DirectBelow(g, requested, c, d);
    } else {
      var path :| Leads(g, path, requested, c);
      assert Leads(g, path + [d], requested, d);
    }
  }
}
