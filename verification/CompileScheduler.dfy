/** CompileScheduler of parallelCompile.py: the shared state, its two locked updates, and the worker threads
    as a state machine over their atomic steps. */
module CompileScheduler {
  import opened Components

  datatype Status = NotStart | Started | Finished

  type Compilation = map<Component, Status>

  ghost predicate NoDuplicates(s: seq<Component>) {
    forall i, j :: 0 <= i < j < |s| ==> s[i] != s[j]
  }

  predicate Has(m: Compilation, c: Component, st: Status) {
    c in m && m[c] == st
  }

  /** Every dependency of c is Finished. */
  predicate Solved(g: Graph, m: Compilation, c: Component) {
    forall d :: d in Depends(g, c) ==> Has(m, d, Finished)
  }

  /** The components that a scan of the to-be-compiled set puts in the queue. */
  function Ready(g: Graph, toBe: set<Component>, m: Compilation): set<Component> {
    set c | c in toBe && Has(m, c, NotStart) && Solved(g, m, c)
  }

  /** The components cs, now Started. */
  function Mark(m: Compilation, cs: set<Component>): Compilation {
    map c | c in m :: if c in cs then Started else m[c]
  }

  ghost predicate Marked(m: Compilation, m': Compilation, added: seq<Component>) {
    m'.Keys == m.Keys && forall c :: c in m ==> m'[c] == if c in added then Started else m[c]
  }

  lemma MarkedIsMark(m: Compilation, m': Compilation, added: seq<Component>, cs: set<Component>)
    requires Marked(m, m', added) && forall c :: c in added <==> c in cs
    ensures m' == Mark(m, cs)
  {
  }

  // ----- The object -----

  class Scheduler {
    const g: Graph
    const names: set<Component>
    const toBeCompiledComponents: set<Component>
    const highPriorityCompileComponents: set<Component>
    var compilationState: Compilation
    var pendingComponents: seq<Component>

    constructor (g: Graph, names: set<Component>, toBeCompiled: set<Component>, highPriority: set<Component>)
      requires names <= g.Keys && toBeCompiled <= names
      ensures this.g == g && this.names == names && toBeCompiledComponents == toBeCompiled
      ensures highPriorityCompileComponents == highPriority && compilationState == map[] && pendingComponents == []
    {
      this.g, this.names, toBeCompiledComponents, highPriorityCompileComponents := g, names, toBeCompiled, highPriority;
      compilationState, pendingComponents := map[], [];
    }

    /** Queues the components that have not started, high priority first, and marks them Started. */
    method AddToPendingQueue(components: seq<Component>) returns (ghost added: seq<Component>)
      requires forall i :: 0 <= i < |components| ==> components[i] in compilationState
      modifies this
      ensures pendingComponents == old(pendingComponents) + added && NoDuplicates(added)
      ensures forall c :: c in added <==> c in components && old(compilationState)[c] == NotStart
      ensures Marked(old(compilationState), compilationState, added)
      ensures forall i, j :: 0 <= i < j < |added| && added[j] in highPriorityCompileComponents ==>
        added[i] in highPriorityCompileComponents
    {
      added := AddPass(components, true, []);
      ghost var first := added;
      added := AddPass(components, false, first);
      assert forall i :: 0 <= i < |first| ==> added[i] == first[i];
      assert first + added[|first|..] == added;
    }

    /** One of the two loops. */
    method AddPass(components: seq<Component>, high: bool, ghost before: seq<Component>)
      returns (ghost added: seq<Component>)
      requires forall i :: 0 <= i < |components| ==> components[i] in compilationState
      requires NoDuplicates(before) && forall c :: c in before ==> Has(compilationState, c, Started)
      requires forall i :: 0 <= i < |before| ==> !high && before[i] in highPriorityCompileComponents
      modifies this
      ensures before <= added && pendingComponents == old(pendingComponents) + added[|before|..] && NoDuplicates(added)
      ensures forall c :: c in added <==> (c in before || (c in components && old(Takes(c, high))))
      ensures Marked(old(compilationState), compilationState, added)
      ensures forall i :: |before| <= i < |added| ==> (added[i] in highPriorityCompileComponents <==> high)
    {
      added := before;
      var k := 0;
      while k < |components|
        invariant 0 <= k <= |components|
        invariant before <= added && pendingComponents == old(pendingComponents) + added[|before|..] &&
          NoDuplicates(added)
        invariant forall c :: c in added <==> (c in before || (c in components[..k] && old(Takes(c, high))))
        invariant Marked(old(compilationState), compilationState, added)
        invariant forall i :: |before| <= i < |added| ==> (added[i] in highPriorityCompileComponents <==> high)
      {
        var component := components[k];
        if (component in highPriorityCompileComponents <==> high) && compilationState[component] == NotStart {
          compilationState := compilationState[component := Started];
          pendingComponents := pendingComponents + [component];
          added := added + [component];
        }
        k := k + 1;
      }
      assert components[..k] == components;
    }

    /** The pass queues the component. */
    predicate Takes(c: Component, high: bool)
      reads this
    {
      Has(compilationState, c, NotStart) && (c in highPriorityCompileComponents <==> high)
    }

    /** getComponentsWithSolvedDepends, kept to the components to be compiled, in some order. */
    method SolvedComponents(finished: set<Component>) returns (solved: seq<Component>)
      ensures NoDuplicates(solved)
      ensures forall c :: c in solved <==> (c in g && c in toBeCompiledComponents && Depends(g, c) <= finished)
    {
      solved := [];
      var todo := g.Keys;
      while todo != {}
        invariant todo <= g.Keys && NoDuplicates(solved)
        invariant forall c :: c in solved <==>
          (c in g.Keys - todo && c in toBeCompiledComponents && Depends(g, c) <= finished)
        decreases todo
      {
        var component :| component in todo;
        if component in toBeCompiledComponents {
          var isSolved := IsComponentDependsSolved(component, finished);
          if isSolved {
            solved := solved + [component];
          }
        }
        todo := todo - {component};
      }
    }

    method IsComponentDependsSolved(component: Component, finished: set<Component>) returns (r: bool)
      requires component in g
      ensures r <==> forall i :: 0 <= i < |g[component]| ==> g[component][i] in finished
      ensures r <==> Depends(g, component) <= finished
    {
      var depends := g[component];
      var i := 0;
      while i < |depends|
        invariant 0 <= i <= |depends|
        invariant forall k :: 0 <= k < i ==> depends[k] in finished
      {
        if depends[i] !in finished {
          assert depends[i] in Depends(g, component);
          return false;
        }
        i := i + 1;
      }
      r := true;
    }

    /** start, up to the creation of the threads. */
    method Start()
      requires names <= g.Keys && toBeCompiledComponents <= names
      requires forall c :: c in toBeCompiledComponents ==> Depends(g, c) <= toBeCompiledComponents
      requires pendingComponents == []
      modifies this
      ensures exists added :: Begins(g, names, toBeCompiledComponents, added, compilationState, pendingComponents)
    {
      compilationState := map c | c in names :: if c in toBeCompiledComponents then NotStart else Finished;
      ghost var m := compilationState;
      var componentsWithoutDepends := SolvedComponents({});
      assert forall c :: c in componentsWithoutDepends ==> c in m && m[c] == NotStart;
      assert forall i :: 0 <= i < |componentsWithoutDepends| ==>
        componentsWithoutDepends[i] in componentsWithoutDepends;
      ghost var added := AddToPendingQueue(componentsWithoutDepends);
      ReadyAtStart(g, toBeCompiledComponents, m);
      MarkedIsMark(m, compilationState, added, Ready(g, toBeCompiledComponents, m));
      assert Begins(g, names, toBeCompiledComponents, added, compilationState, pendingComponents);
    }

    /** The locked update at the end of a build. */
    method FinishCompile(component: Component)
      requires component in compilationState && toBeCompiledComponents <= compilationState.Keys * g.Keys
      modifies this
      ensures exists added ::
        FinishesWith(g, toBeCompiledComponents, old(compilationState), component, added, compilationState) &&
        pendingComponents == old(pendingComponents) + added
    {
      compilationState := compilationState[component := Finished];
      ghost var m := compilationState;
      var finishedComponents := set p | p in compilationState && compilationState[p] == Finished;
      var solved := SolvedComponents(finishedComponents);
      assert forall i :: 0 <= i < |solved| ==> solved[i] in solved;
      ghost var added := AddToPendingQueue(solved);
      assert forall c :: Solved(g, m, c) <==> Depends(g, c) <= finishedComponents;
      MarkedIsMark(m, compilationState, added, Ready(g, toBeCompiledComponents, m));
      assert FinishesWith(g, toBeCompiledComponents, old(compilationState), component, added, compilationState);
    }

    method IsAllComponentsFinished() returns (r: bool)
      ensures r <==> AllFinished(compilationState)
    {
      var todo := compilationState.Keys;
      while todo != {}
        invariant todo <= compilationState.Keys
        invariant forall c :: c in compilationState.Keys - todo ==> compilationState[c] == Finished
        decreases todo
      {
        var component :| component in todo;
        if compilationState[component] != Finished {
          return false;
        }
        todo := todo - {component};
      }
      r := true;
    }
  }

  /** Before anything is built, exactly the components without dependencies are ready. */
  lemma ReadyAtStart(g: Graph, toBe: set<Component>, m: Compilation)
    requires forall c :: c in toBe ==> Has(m, c, NotStart) && Depends(g, c) <= toBe
    ensures forall c :: c in Ready(g, toBe, m) <==> c in toBe && Depends(g, c) == {}
  {
    forall c | c in toBe
      ensures Solved(g, m, c) <==> Depends(g, c) == {}
    {
      assert forall d :: d in Depends(g, c) ==> !Has(m, d, Finished);
    }
  }

  predicate AllFinished(m: Compilation) {
    forall c :: c in m ==> m[c] == Finished
  }

  /** added lists the set cs, each member once. */
  ghost predicate Lists(added: seq<Component>, cs: set<Component>) {
    NoDuplicates(added) && forall c :: c in added <==> c in cs
  }

  /** The state in which the threads are started. */
  ghost predicate Begins(g: Graph, names: set<Component>, toBe: set<Component>, added: seq<Component>,
    m: Compilation, pending: seq<Component>)
  {
    var start := map c | c in names :: if c in toBe then NotStart else Finished;
    Lists(added, Ready(g, toBe, start)) && m == Mark(start, Ready(g, toBe, start)) && pending == added
  }

  /** A component is finished and the scan queues what has become ready. */
  ghost predicate FinishesWith(g: Graph, toBe: set<Component>, m: Compilation, c: Component, added: seq<Component>,
    m': Compilation)
  {
    var done := m[c := Finished];
    Lists(added, Ready(g, toBe, done)) && m' == Mark(done, Ready(g, toBe, done))
  }

  // ----- The threads -----

  /** Where a worker thread stands in the loop of _compile. */
  datatype Worker = Checking | Fetching | Building(c: Component) | Failing(c: Component) | Returned

  /** pending is the queue, queued everything ever put into it, failed the builds with a non-zero exit code. */
  datatype State = State(
    m: Compilation, pending: seq<Component>, workers: seq<Worker>, halted: bool,
    queued: seq<Component>, failed: set<Component>)

  datatype Action =
    | Check(w: nat)                                      // the test for completion, under the lock
    | Fetch(w: nat)                                      // the queue hands out its head
    | Timeout(w: nat)                                    // the queue stayed empty for a second
    | Finish(w: nat, ok: bool, added: seq<Component>)    // make returned: _finishCompile, under the lock
    | Exit(w: nat)                                       // os._exit after a failed build

  predicate At(s: State, w: nat, at: Worker) {
    w < |s.workers| && s.workers[w] == at
  }

  ghost predicate Enabled(g: Graph, toBe: set<Component>, s: State, a: Action) {
    !s.halted &&
    match a
    case Check(w) => At(s, w, Checking)
    case Fetch(w) => At(s, w, Fetching) && s.pending != []
    case Timeout(w) => At(s, w, Fetching) && s.pending == []
    case Finish(w, ok, added) =>
      w < |s.workers| && s.workers[w].Building? && s.workers[w].c in s.m &&
      Lists(added, Ready(g, toBe, s.m[s.workers[w].c := Finished]))
    case Exit(w) => w < |s.workers| && s.workers[w].Failing?
  }

  ghost function Next(g: Graph, toBe: set<Component>, s: State, a: Action): State
    requires Enabled(g, toBe, s, a)
  {
    match a
    case Check(w) => s.(workers := s.workers[w := if AllFinished(s.m) then Returned else Fetching])
    case Fetch(w) => s.(workers := s.workers[w := Building(s.pending[0])], pending := s.pending[1..])
    case Timeout(w) => s.(workers := s.workers[w := Checking])
    case Finish(w, ok, added) =>
      var c := s.workers[w].c;
      var done := s.m[c := Finished];
      State(Mark(done, Ready(g, toBe, done)), s.pending + added,
        s.workers[w := if ok then Checking else Failing(c)], false, s.queued + added,
        if ok then s.failed else s.failed + {c})
    case Exit(w) => s.(halted := true)
  }

  ghost predicate Initial(g: Graph, names: set<Component>, toBe: set<Component>, threads: nat, s: State) {
    && Begins(g, names, toBe, s.pending, s.m, s.pending)
    && s.workers == seq(threads, _ => Checking) && !s.halted && s.queued == s.pending && s.failed == {}
  }

  /** The actions can be taken one after the other, and s' is where they lead. */
  ghost predicate Run(g: Graph, toBe: set<Component>, s: State, actions: seq<Action>, s': State)
    decreases |actions|
  {
    if actions == [] then s' == s
    else Enabled(g, toBe, s, actions[0]) && Run(g, toBe, Next(g, toBe, s, actions[0]), actions[1..], s')
  }

  /** What the rest of the program guarantees when it builds the scheduler. */
  ghost predicate Setup(g: Graph, names: set<Component>, toBe: set<Component>, rank: Component -> nat) {
    && Ranked(g, rank) && toBe <= names <= g.Keys
    && forall c :: c in toBe ==> Depends(g, c) <= toBe
  }

  // ----- The invariant -----

  ghost predicate Inv(g: Graph, names: set<Component>, toBe: set<Component>, s: State) {
    && s.m.Keys == names
    && (forall c :: c in names && c !in toBe ==> s.m[c] == Finished)
    // what has started has all its dependencies finished, and what could start has started
    && (forall c :: c in toBe ==> (Solved(g, s.m, c) <==> !Has(s.m, c, NotStart)))
    && QueueInv(toBe, s) && WorkerInv(toBe, s)
  }

  ghost predicate QueueInv(toBe: set<Component>, s: State) {
    && NoDuplicates(s.queued) && NoDuplicates(s.pending)
    && (forall c :: c in s.queued <==> c in toBe && !Has(s.m, c, NotStart))
    && (forall c :: c in s.pending ==> c in toBe && Has(s.m, c, Started))
  }

  ghost predicate WorkerInv(toBe: set<Component>, s: State) {
    && Builds(toBe, s) && Places(toBe, s)
    && (forall w :: 0 <= w < |s.workers| && s.workers[w].Returned? ==> AllFinished(s.m))
    && (forall c :: c in s.failed ==> s.halted || exists w :: At(s, w, Failing(c)))
  }

  /** What is being built has started, waits no longer, and has one builder. */
  ghost predicate Builds(toBe: set<Component>, s: State) {
    && (forall w :: 0 <= w < |s.workers| && s.workers[w].Building? ==>
         s.workers[w].c in toBe && Has(s.m, s.workers[w].c, Started) && s.workers[w].c !in s.pending)
    && (forall v, w :: 0 <= v < w < |s.workers| && s.workers[v].Building? && s.workers[w].Building? ==>
         s.workers[v].c != s.workers[w].c)
  }

  /** What has started waits or is being built. */
  ghost predicate Places(toBe: set<Component>, s: State) {
    forall c :: c in toBe && Has(s.m, c, Started) ==> c in s.pending || exists w :: At(s, w, Building(c))
  }

  // ----- Preservation -----

  lemma SolvedKept(g: Graph, m: Compilation, m': Compilation, c: Component)
    requires forall d :: Has(m, d, Finished) ==> Has(m', d, Finished)
    requires Solved(g, m, c)
    ensures Solved(g, m', c)
  {
  }

  /** A marked component was ready, so it counts as finished neither before nor after. */
  lemma MarkKeepsFinished(g: Graph, toBe: set<Component>, m: Compilation)
    ensures var m' := Mark(m, Ready(g, toBe, m));
      && m'.Keys == m.Keys
      && (forall d :: Has(m', d, Finished) <==> Has(m, d, Finished))
      && (forall c :: Solved(g, m', c) <==> Solved(g, m, c))
      && (forall c :: Has(m', c, NotStart) <==> Has(m, c, NotStart) && c !in Ready(g, toBe, m))
      && (forall c :: Has(m', c, Started) <==> Has(m, c, Started) || c in Ready(g, toBe, m))
  {
    var m' := Mark(m, Ready(g, toBe, m));
    assert forall d :: Has(m', d, Finished) <==> Has(m, d, Finished);
  }

  lemma InitialInv(g: Graph, names: set<Component>, toBe: set<Component>, rank: Component -> nat, threads: nat,
      s: State)
    requires Setup(g, names, toBe, rank) && Initial(g, names, toBe, threads, s)
    ensures Inv(g, names, toBe, s)
  {
    var start := map c | c in names :: if c in toBe then NotStart else Finished;
    MarkKeepsFinished(g, toBe, start);
    forall c | c in toBe
      ensures Solved(g, s.m, c) <==> !Has(s.m, c, NotStart)
    {
      assert Has(start, c, NotStart);
    }
  }

  lemma NoDuplicatesConcat(a: seq<Component>, b: seq<Component>)
    requires NoDuplicates(a) && NoDuplicates(b) && forall x :: x in b ==> x !in a
    ensures NoDuplicates(a + b)
  {
    forall i, j | 0 <= i < j < |a + b|
      ensures (a + b)[i] != (a + b)[j]
    {
      if i < |a| <= j {
        assert b[j - |a|] in b;
      }
    }
  }

  lemma FinishInv(g: Graph, names: set<Component>, toBe: set<Component>, s: State, w: nat, ok: bool,
      added: seq<Component>)
    requires toBe <= names && Inv(g, names, toBe, s) && Enabled(g, toBe, s, Finish(w, ok, added))
    ensures Inv(g, names, toBe, Next(g, toBe, s, Finish(w, ok, added)))
  {
    var c := s.workers[w].c;
    var done := s.m[c := Finished];
    var s' := Next(g, toBe, s, Finish(w, ok, added));
    MarkKeepsFinished(g, toBe, done);
    assert forall d :: Has(s.m, d, Finished) ==> Has(done, d, Finished);
    forall x | x in toBe
      ensures Solved(g, s'.m, x) <==> !Has(s'.m, x, NotStart)
    {
      if Solved(g, s.m, x) {
        SolvedKept(g, s.m, done, x);
      }
    }
    assert forall x :: x in added ==> x !in s.queued && x !in s.pending;
    NoDuplicatesConcat(s.queued, added);
    NoDuplicatesConcat(s.pending, added);
    assert QueueInv(toBe, s');
    FinishWorkers(g, names, toBe, s, w, ok, added, c, s');
  }

  lemma FinishWorkers(g: Graph, names: set<Component>, toBe: set<Component>, s: State, w: nat, ok: bool,
      added: seq<Component>, c: Component, s': State)
    requires toBe <= names && Inv(g, names, toBe, s) && Enabled(g, toBe, s, Finish(w, ok, added)) && c == s.workers[w].c
    requires s' == Next(g, toBe, s, Finish(w, ok, added))
    ensures WorkerInv(toBe, s')
  {
    var done := s.m[c := Finished];
    MarkKeepsFinished(g, toBe, done);
    assert forall v :: 0 <= v < |s.workers| && v != w ==> s'.workers[v] == s.workers[v];
    assert Builds(toBe, s');
    FinishPlaces(g, toBe, s, w, ok, added, c, s');
    forall x | x in s'.failed
      ensures s'.halted || exists v :: At(s', v, Failing(x))
    {
      if x in s.failed {
        var v :| At(s, v, Failing(x));
        assert At(s', v, Failing(x));
      } else {
        assert At(s', w, Failing(x));
      }
    }
    assert Has(s.m, c, Started) && !AllFinished(s.m);
    assert forall v :: 0 <= v < |s.workers| ==> !s.workers[v].Returned?;
  }

  lemma FinishPlaces(g: Graph, toBe: set<Component>, s: State, w: nat, ok: bool, added: seq<Component>, c: Component,
      s': State)
    requires Places(toBe, s) && Enabled(g, toBe, s, Finish(w, ok, added)) && c == s.workers[w].c
    requires s' == Next(g, toBe, s, Finish(w, ok, added))
    ensures Places(toBe, s')
  {
    MarkKeepsFinished(g, toBe, s.m[c := Finished]);
    forall x | x in toBe && Has(s'.m, x, Started)
      ensures x in s'.pending || exists v :: At(s', v, Building(x))
    {
      if x !in added {
        assert x != c && Has(s.m, x, Started);
        if x !in s.pending {
          var v :| At(s, v, Building(x));
          assert At(s', v, Building(x));
        }
      }
    }
  }

  lemma OtherWorkers(toBe: set<Component>, s: State, s': State, w: nat, at: Worker)
    requires WorkerInv(toBe, s) && w < |s.workers| && !s.workers[w].Building? && !s.workers[w].Failing? && !at.Building?
    requires s' == s.(workers := s.workers[w := at]) && (at.Returned? ==> AllFinished(s.m))
    ensures WorkerInv(toBe, s')
  {
    assert forall v, x :: At(s, v, x) && v != w ==> At(s', v, x);
  }

  lemma FetchInv(g: Graph, names: set<Component>, toBe: set<Component>, s: State, w: nat)
    requires toBe <= names && Inv(g, names, toBe, s) && Enabled(g, toBe, s, Fetch(w))
    ensures Inv(g, names, toBe, Next(g, toBe, s, Fetch(w)))
  {
    var s' := Next(g, toBe, s, Fetch(w));
    FetchQueue(toBe, s, w, s.pending[0], s');
    FetchWorkers(toBe, s, w, s.pending[0], s');
  }

  lemma FetchQueue(toBe: set<Component>, s: State, w: nat, c: Component, s': State)
    requires w < |s.workers| && s.pending != [] && c == s.pending[0]
    requires s' == s.(workers := s.workers[w := Building(c)], pending := s.pending[1..])
    requires QueueInv(toBe, s)
    ensures QueueInv(toBe, s') && c !in s'.pending
  {
    assert forall x :: x in s'.pending ==> x in s.pending;
  }

  lemma FetchWorkers(toBe: set<Component>, s: State, w: nat, c: Component, s': State)
    requires w < |s.workers| && s.workers[w] == Fetching && s.pending != [] && c == s.pending[0]
    requires s' == s.(workers := s.workers[w := Building(c)], pending := s.pending[1..])
    requires WorkerInv(toBe, s) && c in toBe && Has(s.m, c, Started) && c !in s'.pending
    ensures WorkerInv(toBe, s')
  {
    assert c in s.pending && At(s', w, Building(c));
    assert s.pending == [c] + s'.pending;
    assert forall v, x :: At(s, v, x) && v != w ==> At(s', v, x);
  }

  /** Every atomic step keeps the invariant. */
  lemma StepInv(g: Graph, names: set<Component>, toBe: set<Component>, s: State, a: Action)
    requires toBe <= names && Inv(g, names, toBe, s) && Enabled(g, toBe, s, a)
    ensures Inv(g, names, toBe, Next(g, toBe, s, a))
  {
    match a
    case Check(w) => OtherWorkers(toBe, s, Next(g, toBe, s, a), w, if AllFinished(s.m) then Returned else Fetching);
    case Fetch(w) => FetchInv(g, names, toBe, s, w);
    case Timeout(w) => OtherWorkers(toBe, s, Next(g, toBe, s, a), w, Checking);
    case Finish(w, ok, added) => FinishInv(g, names, toBe, s, w, ok, added);
    case Exit(w) => assert forall v, x :: At(s, v, x) ==> At(Next(g, toBe, s, a), v, x);
  }

  lemma {:induction false} RunInv(g: Graph, names: set<Component>, toBe: set<Component>, s: State,
      actions: seq<Action>, s': State)
    requires toBe <= names && Inv(g, names, toBe, s) && Run(g, toBe, s, actions, s')
    ensures Inv(g, names, toBe, s')
    decreases |actions|
  {
    if actions != [] {
      StepInv(g, names, toBe, s, actions[0]);
      RunInv(g, names, toBe, Next(g, toBe, s, actions[0]), actions[1..], s');
    }
  }

  /** What holds in every state that a run reaches. */
  lemma Reached(g: Graph, names: set<Component>, toBe: set<Component>, rank: Component -> nat, threads: nat,
      s: State, actions: seq<Action>, s': State)
    requires Setup(g, names, toBe, rank) && Initial(g, names, toBe, threads, s) && Run(g, toBe, s, actions, s')
    ensures Inv(g, names, toBe, s') && |s'.workers| == threads && FailuresRecorded(s')
  {
    InitialInv(g, names, toBe, rank, threads, s);
    RunInv(g, names, toBe, s, actions, s');
    RunThreads(g, toBe, s, actions, s');
  }

  /** Safety of every run: a component that is being built or has been built had all its dependencies
      finished first, and no component enters the queue twice. */
  lemma SchedulerSafety(g: Graph, names: set<Component>, toBe: set<Component>, rank: Component -> nat, threads: nat,
      s: State, actions: seq<Action>, s': State)
    requires Setup(g, names, toBe, rank) && Initial(g, names, toBe, threads, s) && Run(g, toBe, s, actions, s')
    ensures forall c, i :: c in toBe && !Has(s'.m, c, NotStart) && 0 <= i < |g[c]| ==> Has(s'.m, g[c][i], Finished)
    ensures forall w, c, i :: At(s', w, Building(c)) && c in g && 0 <= i < |g[c]| ==> Has(s'.m, g[c][i], Finished)
    ensures forall v, w, c :: At(s', v, Building(c)) && At(s', w, Building(c)) ==> v == w
    ensures NoDuplicates(s'.queued)
  {
    Reached(g, names, toBe, rank, threads, s, actions, s');
    forall c, i | c in toBe && !Has(s'.m, c, NotStart) && 0 <= i < |g[c]|
      ensures Has(s'.m, g[c][i], Finished)
    {
      assert Solved(g, s'.m, c) && g[c][i] in Depends(g, c);
    }
  }

  // ----- Absence of deadlock -----

  /** An unfinished component of least rank has started. */
  lemma {:induction false} SomeStarted(g: Graph, names: set<Component>, toBe: set<Component>, rank: Component -> nat,
      s: State, c: Component)
    returns (d: Component)
    requires Setup(g, names, toBe, rank) && Inv(g, names, toBe, s)
    requires c in toBe && !Has(s.m, c, Finished)
    ensures d in toBe && Has(s.m, d, Started)
    decreases rank(c)
  {
    if Has(s.m, c, Started) {
      d := c;
    } else {
      assert !Solved(g, s.m, c);
      var e :| e in Depends(g, c) && !Has(s.m, e, Finished);
      var i :| 0 <= i < |g[c]| && g[c][i] == e;
      d := SomeStarted(g, names, toBe, rank, s, e);
    }
  }

  /** Some thread can take a component from the queue, or is building one. */
  ghost predicate CanProceed(s: State) {
    || (exists w, c :: At(s, w, Building(c)))
    || (s.pending != [] && exists w :: At(s, w, Checking) || At(s, w, Fetching))
  }

  /** While something is unfinished and no build has failed, a component is Started, and some thread can take
      one from the queue or is building one. */
  lemma NoDeadlock(g: Graph, names: set<Component>, toBe: set<Component>, rank: Component -> nat, threads: nat,
      s: State, actions: seq<Action>, s': State)
    requires Setup(g, names, toBe, rank) && threads > 0
    requires Initial(g, names, toBe, threads, s) && Run(g, toBe, s, actions, s')
    requires !s'.halted && s'.failed == {} && !AllFinished(s'.m)
    ensures exists c :: c in toBe && Has(s'.m, c, Started)
    ensures CanProceed(s')
  {
    Reached(g, names, toBe, rank, threads, s, actions, s');
    UnfinishedProceeds(g, names, toBe, rank, s');
  }

  lemma UnfinishedProceeds(g: Graph, names: set<Component>, toBe: set<Component>, rank: Component -> nat, s: State)
    requires Setup(g, names, toBe, rank) && Inv(g, names, toBe, s) && FailuresRecorded(s)
    requires |s.workers| > 0 && s.failed == {} && !AllFinished(s.m)
    ensures exists c :: c in toBe && Has(s.m, c, Started)
    ensures CanProceed(s)
  {
    var c :| c in s.m && s.m[c] != Finished;
    var d := SomeStarted(g, names, toBe, rank, s, c);
    if d in s.pending {
      StandsAt(s, 0);
      assert At(s, 0, s.workers[0]);
    } else {
      var w :| At(s, w, Building(d));
    }
  }

  lemma StandsAt(s: State, w: nat)
    requires w < |s.workers|
    ensures s.workers[w].Building? ==> exists c :: At(s, w, Building(c))
    ensures s.workers[w].Failing? ==> exists c :: At(s, w, Failing(c))
  {
    var at := s.workers[w];
    assert at.Building? ==> At(s, w, Building(at.c));
    assert at.Failing? ==> At(s, w, Failing(at.c));
  }

  ghost predicate FailuresRecorded(s: State) {
    forall w, c :: At(s, w, Failing(c)) ==> c in s.failed
  }

  lemma {:induction false} RunThreads(g: Graph, toBe: set<Component>, s: State, actions: seq<Action>, s': State)
    requires Run(g, toBe, s, actions, s')
    requires FailuresRecorded(s)
    ensures |s'.workers| == |s.workers| && FailuresRecorded(s')
    decreases |actions|
  {
    if actions != [] {
      assert forall w, x :: At(Next(g, toBe, s, actions[0]), w, x) && x.Failing? ==>
        At(s, w, x) || x.c in Next(g, toBe, s, actions[0]).failed;
      RunThreads(g, toBe, Next(g, toBe, s, actions[0]), actions[1..], s');
    }
  }

  // ----- Every run is short, and ends with everything built -----

  function Fetches(actions: seq<Action>): nat {
    if actions == [] then 0 else (if actions[0].Fetch? then 1 else 0) + Fetches(actions[1..])
  }

  function Finishes(actions: seq<Action>): nat {
    if actions == [] then 0 else (if actions[0].Finish? then 1 else 0) + Finishes(actions[1..])
  }

  function Busy(workers: seq<Worker>): nat {
    if workers == [] then 0 else (if workers[0].Building? then 1 else 0) + Busy(workers[1..])
  }

  lemma {:induction false} BusyUpdate(workers: seq<Worker>, w: nat, at: Worker)
    requires w < |workers|
    ensures Busy(workers[w := at]) == Busy(workers) - (if workers[w].Building? then 1 else 0) +
      (if at.Building? then 1 else 0)
  {
    if w == 0 {
      assert workers[0 := at][1..] == workers[1..];
    } else {
      assert workers[w := at][1..] == workers[1..][w - 1 := at];
      BusyUpdate(workers[1..], w - 1, at);
    }
  }

  lemma {:induction false} BusyIdle(workers: seq<Worker>)
    ensures Busy(workers) == 0 <==> forall w :: 0 <= w < |workers| ==> !workers[w].Building?
  {
    if workers != [] {
      BusyIdle(workers[1..]);
      assert forall w :: 0 < w < |workers| ==> workers[w] == workers[1..][w - 1];
      assert forall w :: 0 <= w < |workers[1..]| ==> workers[1..][w] == workers[w + 1];
    }
  }

  /** Conservation: what was queued was fetched or waits, what was fetched was finished or is being built. */
  lemma {:induction false} RunCounts(g: Graph, toBe: set<Component>, s: State, actions: seq<Action>, s': State)
    requires Run(g, toBe, s, actions, s')
    ensures |s'.queued| - |s'.pending| == |s.queued| - |s.pending| + Fetches(actions)
    ensures Busy(s'.workers) == Busy(s.workers) + Fetches(actions) - Finishes(actions)
    decreases |actions|
  {
    if actions != [] {
      var a, next := actions[0], Next(g, toBe, s, actions[0]);
      match a {
        case Check(w) => BusyUpdate(s.workers, w, next.workers[w]);
        case Fetch(w) => BusyUpdate(s.workers, w, next.workers[w]);
        case Timeout(w) => BusyUpdate(s.workers, w, next.workers[w]);
        case Finish(w, _, _) => BusyUpdate(s.workers, w, next.workers[w]);
        case Exit(_) =>
      }
      RunCounts(g, toBe, next, actions[1..], s');
    }
  }

  /** The components that the threads took from the queue, in order. */
  ghost function Taken(g: Graph, toBe: set<Component>, s: State, actions: seq<Action>, s': State): seq<Component>
    requires Run(g, toBe, s, actions, s')
    decreases |actions|
  {
    if actions == [] then [] else
    var next := Next(g, toBe, s, actions[0]);
    (if actions[0].Fetch? && next.workers[actions[0].w].Building? then [next.workers[actions[0].w].c] else [])
      + Taken(g, toBe, next, actions[1..], s')
  }

  /** The queue is first in, first out: what was queued is what was taken, in order, followed by what waits. */
  lemma {:induction false} TakenInOrder(g: Graph, toBe: set<Component>, s: State, actions: seq<Action>, s': State,
      before: seq<Component>)
    requires Run(g, toBe, s, actions, s') && s.queued == before + s.pending
    ensures s'.queued == before + Taken(g, toBe, s, actions, s') + s'.pending
    ensures |Taken(g, toBe, s, actions, s')| == Fetches(actions)
    decreases |actions|
  {
    if actions == [] {
      assert before + [] == before;
    } else {
      var next := Next(g, toBe, s, actions[0]);
      var now := if actions[0].Fetch? then [s.pending[0]] else [];
      assert next.queued == before + now + next.pending by {
        if actions[0].Fetch? {
          assert s.pending == [s.pending[0]] + s.pending[1..];
        }
      }
      TakenInOrder(g, toBe, next, actions[1..], s', before + now);
      Regroup(before, now, Taken(g, toBe, next, actions[1..], s'));
    }
  }

  lemma Regroup(a: seq<Component>, b: seq<Component>, c: seq<Component>)
    ensures a + b + c == a + (b + c)
  {
  }

  /** Over every run the components are taken in the order in which they were queued, each once. */
  lemma FirstInFirstOut(g: Graph, names: set<Component>, toBe: set<Component>, rank: Component -> nat, threads: nat,
      s: State, actions: seq<Action>, s': State)
    requires Setup(g, names, toBe, rank) && Initial(g, names, toBe, threads, s) && Run(g, toBe, s, actions, s')
    ensures s'.queued == Taken(g, toBe, s, actions, s') + s'.pending && NoDuplicates(s'.queued)
  {
    Reached(g, names, toBe, rank, threads, s, actions, s');
    assert [] + s.pending == s.pending;
    TakenInOrder(g, toBe, s, actions, s', []);
    assert [] + Taken(g, toBe, s, actions, s') == Taken(g, toBe, s, actions, s');
  }

  lemma {:induction false} ListSize(list: seq<Component>, cs: set<Component>)
    requires NoDuplicates(list) && forall c :: c in list ==> c in cs
    ensures |list| <= |cs|
    ensures (forall c :: c in cs ==> c in list) ==> |list| == |cs|
    decreases |list|
  {
    if list == [] {
      assert (forall c :: c in cs ==> c in list) ==> cs == {};
    } else {
      var c := list[0];
      assert c in list;
      assert forall d :: d in list[1..] ==> d != c;
      ListSize(list[1..], cs - {c});
    }
  }

  lemma {:induction false} InitialIdle(threads: nat)
    ensures Busy(seq(threads, _ => Checking)) == 0
  {
    BusyIdle(seq(threads, _ => Checking));
  }

  /** A run hands out and finishes each component at most once, so it has at most two productive steps per
      component; where no thread can proceed any more, everything is finished, each component after exactly
      one build. */
  lemma SchedulerCompletes(g: Graph, names: set<Component>, toBe: set<Component>, rank: Component -> nat, threads: nat,
      s: State, actions: seq<Action>, s': State)
    requires Setup(g, names, toBe, rank) && threads > 0
    requires Initial(g, names, toBe, threads, s) && Run(g, toBe, s, actions, s')
    ensures Finishes(actions) <= Fetches(actions) <= |s'.queued| <= |toBe|
    ensures !s'.halted && s'.failed == {} && !CanProceed(s') ==> AllFinished(s'.m)
    ensures AllFinished(s'.m) ==> Finishes(actions) == Fetches(actions) == |toBe| && s'.pending == []
  {
    Reached(g, names, toBe, rank, threads, s, actions, s');
    RunCounts(g, toBe, s, actions, s');
    InitialIdle(threads);
    ListSize(s'.queued, toBe);
    if !s'.halted && s'.failed == {} && !AllFinished(s'.m) {
      NoDeadlock(g, names, toBe, rank, threads, s, actions, s');
    }
    assert s'.pending != [] ==> s'.pending[0] in s'.pending;
    BusyIdle(s'.workers);
  }

  // ----- A failed build -----

  /** A component is being built although a dependency of it failed. */
  ghost predicate BuildsOnFailure(g: Graph, s: State) {
    exists w, c, d :: At(s, w, Building(c)) && c in g && d in g[c] && d in s.failed
  }

  lemma SingleThreadStops(g: Graph, toBe: set<Component>, names: set<Component>, threads: nat,
      s: State, actions: seq<Action>, s': State)
    requires threads <= 1
    requires Initial(g, names, toBe, threads, s) && Run(g, toBe, s, actions, s')
    ensures !BuildsOnFailure(g, s')
  {
    RunThreads(g, toBe, s, actions, s');
    FailingStays(g, toBe, s, actions, s');
    if BuildsOnFailure(g, s') {
      var w, c, d :| At(s', w, Building(c)) && c in g && d in g[c] && d in s'.failed;
      var v :| At(s', v, Failing(d));
    }
  }

  ghost predicate SomeFailing(s: State) {
    forall c :: c in s.failed ==> exists w :: At(s, w, Failing(c))
  }

  lemma {:induction false} FailingStays(g: Graph, toBe: set<Component>, s: State, actions: seq<Action>, s': State)
    requires Run(g, toBe, s, actions, s') && SomeFailing(s)
    ensures SomeFailing(s')
    decreases |actions|
  {
    if actions != [] {
      var next := Next(g, toBe, s, actions[0]);
      forall c | c in next.failed
        ensures exists w :: At(next, w, Failing(c))
      {
        if c in s.failed {
          var w :| At(s, w, Failing(c));
          assert At(next, w, Failing(c));
        } else {
          assert At(next, actions[0].w, Failing(c));
        }
      }
      FailingStays(g, toBe, next, actions[1..], s');
    }
  }

  ghost predicate ReachesFailure(g: Graph, names: set<Component>, toBe: set<Component>, threads: nat,
    s: State, actions: seq<Action>, s': State)
  {
    Initial(g, names, toBe, threads, s) && Run(g, toBe, s, actions, s') && BuildsOnFailure(g, s')
  }

  /** _finishCompile runs before os._exit, so a second thread can start on a dependent of the failed component.
      Some run of the scheduler does so if and only if there are two threads and a dependency to build. */
  lemma FailedDependencyIff(g: Graph, names: set<Component>, toBe: set<Component>, rank: Component -> nat, threads: nat)
    requires Setup(g, names, toBe, rank)
    ensures (exists s, actions, s' :: ReachesFailure(g, names, toBe, threads, s, actions, s')) <==>
      threads >= 2 && exists c :: c in toBe && g[c] != []
  {
    if threads >= 2 && exists c :: c in toBe && g[c] != [] {
      FailureReachable(g, names, toBe, rank, threads);
    }
    forall s, actions, s' | ReachesFailure(g, names, toBe, threads, s, actions, s')
      ensures threads >= 2 && exists c :: c in toBe && g[c] != []
    {
      FailureNeeds(g, names, toBe, rank, threads, s, actions, s');
    }
  }

  lemma FailureReachable(g: Graph, names: set<Component>, toBe: set<Component>, rank: Component -> nat, threads: nat)
    requires Setup(g, names, toBe, rank) && threads >= 2 && exists c :: c in toBe && g[c] != []
    ensures exists s, actions, s' :: ReachesFailure(g, names, toBe, threads, s, actions, s')
  {
    var s := SomeInitial(g, names, toBe, threads);
    InitialInv(g, names, toBe, rank, threads, s);
    var c :| c in toBe && g[c] != [];
    assert g[c][0] in Depends(g, c);
    DependentWaits(g, names, toBe, threads, s, c);
    var actions, s' := FailureRun(g, names, toBe, rank, s, c);
    assert ReachesFailure(g, names, toBe, threads, s, actions, s');
  }

  lemma FailureNeeds(g: Graph, names: set<Component>, toBe: set<Component>, rank: Component -> nat, threads: nat,
      s: State, actions: seq<Action>, s': State)
    requires Setup(g, names, toBe, rank) && ReachesFailure(g, names, toBe, threads, s, actions, s')
    ensures threads >= 2 && exists c :: c in toBe && g[c] != []
  {
    if threads < 2 {
      SingleThreadStops(g, toBe, names, threads, s, actions, s');
    }
    Reached(g, names, toBe, rank, threads, s, actions, s');
  }

  lemma {:induction false} ListOf(cs: set<Component>) returns (list: seq<Component>)
    ensures Lists(list, cs)
    decreases cs
  {
    if cs == {} {
      list := [];
    } else {
      var c :| c in cs;
      var rest := ListOf(cs - {c});
      list := [c] + rest;
    }
  }

  lemma SomeInitial(g: Graph, names: set<Component>, toBe: set<Component>, threads: nat) returns (s: State)
    ensures Initial(g, names, toBe, threads, s)
  {
    var start := map c | c in names :: if c in toBe then NotStart else Finished;
    var added := ListOf(Ready(g, toBe, start));
    s := State(Mark(start, Ready(g, toBe, start)), added, seq(threads, _ => Checking), false, added, {});
  }

  /** A component with dependencies does not start at once. */
  lemma DependentWaits(g: Graph, names: set<Component>, toBe: set<Component>, threads: nat, s: State, c: Component)
    requires toBe <= names && Depends(g, c) <= toBe
    requires Initial(g, names, toBe, threads, s) && c in toBe && Depends(g, c) != {}
    ensures Has(s.m, c, NotStart)
  {
    var start := map c | c in names :: if c in toBe then NotStart else Finished;
    var d :| d in Depends(g, c);
    assert !Has(start, d, Finished);
    assert c !in Ready(g, toBe, start);
  }

  lemma RunOne(g: Graph, toBe: set<Component>, s: State, a: Action)
    requires Enabled(g, toBe, s, a)
    ensures Run(g, toBe, s, [a], Next(g, toBe, s, a))
  {
    var s' := Next(g, toBe, s, a);
    assert [a][1..] == [];
    assert Run(g, toBe, s', [], s');
  }

  lemma {:induction false} RunConcat(g: Graph, toBe: set<Component>, s: State, before: seq<Action>, mid: State,
      after: seq<Action>, s': State)
    requires Run(g, toBe, s, before, mid) && Run(g, toBe, mid, after, s')
    ensures Run(g, toBe, s, before + after, s')
    decreases |before|
  {
    if before == [] {
      assert before + after == after;
    } else {
      assert (before + after)[1..] == before[1..] + after;
      RunConcat(g, toBe, Next(g, toBe, s, before[0]), before[1..], mid, after, s');
    }
  }

  /** All threads but the first are at the top of their loop, and no build has failed. */
  ghost predicate OthersChecking(s: State) {
    !s.halted && s.failed == {} && |s.workers| >= 2 && forall w :: 0 < w < |s.workers| ==> s.workers[w] == Checking
  }

  /** While c waits, the first thread builds the head of the queue until a finished build makes a component ready;
      that build fails, and the second thread gets to the component. */
  lemma {:induction false} FailureRun(g: Graph, names: set<Component>, toBe: set<Component>, rank: Component -> nat,
      s: State, c: Component) returns (actions: seq<Action>, s': State)
    requires Setup(g, names, toBe, rank) && Inv(g, names, toBe, s)
    requires OthersChecking(s) && s.workers[0] == Checking && c in toBe && Has(s.m, c, NotStart)
    ensures Run(g, toBe, s, actions, s') && BuildsOnFailure(g, s')
    decreases |s.pending|
  {
    var start, s1, b := StartBuild(g, names, toBe, rank, s, c);
    if Ready(g, toBe, s1.m[b := Finished]) == {} {
      var quiet, s2 := QuietBuild(g, names, toBe, s1, b, c);
      var rest;
      rest, s' := FailureRun(g, names, toBe, rank, s2, c);
      RunConcat(g, toBe, s1, quiet, s2, rest, s');
      actions := quiet + rest;
    } else {
      actions, s' := FailedBuild(g, names, toBe, s1, b);
    }
    RunConcat(g, toBe, s, start, s1, actions, s');
    actions := start + actions;
  }

  /** The first thread takes the head of the queue. */
  lemma StartBuild(g: Graph, names: set<Component>, toBe: set<Component>, rank: Component -> nat, s: State,
      c: Component)
    returns (actions: seq<Action>, s': State, b: Component)
    requires Setup(g, names, toBe, rank) && Inv(g, names, toBe, s)
    requires OthersChecking(s) && s.workers[0] == Checking && c in toBe && Has(s.m, c, NotStart)
    ensures Run(g, toBe, s, actions, s') && Inv(g, names, toBe, s') && OthersChecking(s')
    ensures s'.workers[0] == Building(b) && b in names && |s'.pending| < |s.pending| && Has(s'.m, c, NotStart)
  {
    QueueWaits(g, names, toBe, rank, s, c);
    var check, s1 := CheckFirst(g, names, toBe, s);
    var fetch;
    fetch, s', b := FetchFirst(g, names, toBe, s1);
    RunConcat(g, toBe, s, check, s1, fetch, s');
    actions := check + fetch;
  }

  lemma QueueWaits(g: Graph, names: set<Component>, toBe: set<Component>, rank: Component -> nat, s: State,
      c: Component)
    requires Setup(g, names, toBe, rank) && Inv(g, names, toBe, s)
    requires OthersChecking(s) && s.workers[0] == Checking && Has(s.m, c, NotStart)
    ensures s.pending != [] && !AllFinished(s.m)
  {
    assert !AllFinished(s.m);
    UnfinishedProceeds(g, names, toBe, rank, s);
  }

  lemma CheckFirst(g: Graph, names: set<Component>, toBe: set<Component>, s: State)
    returns (actions: seq<Action>, s': State)
    requires toBe <= names && Inv(g, names, toBe, s)
    requires OthersChecking(s) && s.workers[0] == Checking && !AllFinished(s.m)
    ensures Run(g, toBe, s, actions, s') && Inv(g, names, toBe, s') && OthersChecking(s')
    ensures s'.workers[0] == Fetching && s'.pending == s.pending && s'.m == s.m
  {
    s' := Next(g, toBe, s, Check(0));
    StepInv(g, names, toBe, s, Check(0));
    RunOne(g, toBe, s, Check(0));
    actions := [Check(0)];
  }

  lemma FetchFirst(g: Graph, names: set<Component>, toBe: set<Component>, s: State)
    returns (actions: seq<Action>, s': State, b: Component)
    requires toBe <= names && Inv(g, names, toBe, s) && OthersChecking(s) && s.workers[0] == Fetching && s.pending != []
    ensures Run(g, toBe, s, actions, s') && Inv(g, names, toBe, s') && OthersChecking(s')
    ensures s'.workers[0] == Building(b) && b in names && |s'.pending| < |s.pending| && s'.m == s.m
  {
    b := s.pending[0];
    assert b in s.pending;
    s' := Next(g, toBe, s, Fetch(0));
    StepInv(g, names, toBe, s, Fetch(0));
    RunOne(g, toBe, s, Fetch(0));
    actions := [Fetch(0)];
  }

  /** The first thread's build of b ends well and makes nothing ready. */
  lemma QuietBuild(g: Graph, names: set<Component>, toBe: set<Component>, s: State, b: Component, c: Component)
    returns (actions: seq<Action>, s': State)
    requires toBe <= names && Inv(g, names, toBe, s) && OthersChecking(s)
    requires s.workers[0] == Building(b) && b in names
    requires Ready(g, toBe, s.m[b := Finished]) == {} && Has(s.m, c, NotStart)
    ensures Run(g, toBe, s, actions, s') && Inv(g, names, toBe, s') && OthersChecking(s')
    ensures s'.workers[0] == Checking && |s'.pending| == |s.pending| && Has(s'.m, c, NotStart)
  {
    var finish := Finish(0, true, []);
    s' := Next(g, toBe, s, finish);
    assert s'.m == Mark(s.m[b := Finished], {});
    StepInv(g, names, toBe, s, finish);
    RunOne(g, toBe, s, finish);
    actions := [finish];
  }

  /** The build of b by the first thread fails while the second thread is past its check. */
  lemma FailedBuild(g: Graph, names: set<Component>, toBe: set<Component>, s: State, b: Component)
    returns (actions: seq<Action>, s': State)
    requires toBe <= names && Inv(g, names, toBe, s) && OthersChecking(s)
    requires s.workers[0] == Building(b) && b in names && Ready(g, toBe, s.m[b := Finished]) != {}
    ensures Run(g, toBe, s, actions, s') && BuildsOnFailure(g, s')
  {
    assert Has(s.m, b, Started) && !AllFinished(s.m);
    var s1 := s.(workers := s.workers[1 := Fetching]);
    assert s1 == Next(g, toBe, s, Check(1));
    StepInv(g, names, toBe, s, Check(1));
    RunOne(g, toBe, s, Check(1));
    var finish, s2, k := FailingStep(g, names, toBe, s1, b);
    var drain;
    drain, s' := DrainTo(g, names, toBe, s2, k, b);
    RunConcat(g, toBe, s1, finish, s2, drain, s');
    RunConcat(g, toBe, s, [Check(1)], s1, finish + drain, s');
    actions := [Check(1)] + (finish + drain);
  }

  /** What a failed build makes ready depends on it. */
  lemma FailingStep(g: Graph, names: set<Component>, toBe: set<Component>, s: State, b: Component)
    returns (actions: seq<Action>, s': State, k: nat)
    requires toBe <= names && Inv(g, names, toBe, s) && !s.halted && b in names
    requires |s.workers| >= 2 && s.workers[0] == Building(b) && s.workers[1] == Fetching
    requires Ready(g, toBe, s.m[b := Finished]) != {}
    ensures Run(g, toBe, s, actions, s') && Inv(g, names, toBe, s')
    ensures !s'.halted && At(s', 1, Fetching) && b in s'.failed
    ensures k < |s'.pending| && b in Depends(g, s'.pending[k])
  {
    var added := ListOf(Ready(g, toBe, s.m[b := Finished]));
    var x :| x in Ready(g, toBe, s.m[b := Finished]);
    DependsOnFinished(g, toBe, s.m, b, x);
    var finish := Finish(0, false, added);
    s' := Next(g, toBe, s, finish);
    StepInv(g, names, toBe, s, finish);
    RunOne(g, toBe, s, finish);
    actions := [finish];
    var i :| 0 <= i < |added| && added[i] == x;
    k := |s.pending| + i;
  }

  lemma DependsOnFinished(g: Graph, toBe: set<Component>, m: Compilation, b: Component, x: Component)
    requires forall c :: c in toBe ==> (Solved(g, m, c) <==> !Has(m, c, NotStart))
    requires Has(m, b, Started) && x in Ready(g, toBe, m[b := Finished])
    ensures b in Depends(g, x)
  {
    assert Has(m, x, NotStart);
  }

  /** The second thread empties the queue up to a component that depends on the failed one. */
  lemma {:induction false} DrainTo(g: Graph, names: set<Component>, toBe: set<Component>, s: State, k: nat,
      b: Component)
    returns (actions: seq<Action>, s': State)
    requires toBe <= names && Inv(g, names, toBe, s) && !s.halted && At(s, 1, Fetching)
    requires k < |s.pending| && b in Depends(g, s.pending[k]) && b in s.failed
    ensures Run(g, toBe, s, actions, s') && BuildsOnFailure(g, s')
    decreases k
  {
    if k == 0 {
      actions, s' := FetchDependent(g, toBe, s, b);
    } else {
      var build, s1 := BuildNext(g, names, toBe, s, k);
      var rest;
      rest, s' := DrainTo(g, names, toBe, s1, k - 1, b);
      RunConcat(g, toBe, s, build, s1, rest, s');
      actions := build + rest;
    }
  }

  lemma FetchDependent(g: Graph, toBe: set<Component>, s: State, b: Component) returns (actions: seq<Action>, s': State)
    requires !s.halted && At(s, 1, Fetching) && s.pending != [] && b in Depends(g, s.pending[0]) && b in s.failed
    ensures Run(g, toBe, s, actions, s') && BuildsOnFailure(g, s')
  {
    RunOne(g, toBe, s, Fetch(1));
    actions, s' := [Fetch(1)], Next(g, toBe, s, Fetch(1));
    assert At(s', 1, Building(s.pending[0]));
  }

  /** The second thread builds the head of the queue, and what waits at k moves up by one. */
  lemma BuildNext(g: Graph, names: set<Component>, toBe: set<Component>, s: State, k: nat)
    returns (actions: seq<Action>, s': State)
    requires toBe <= names && Inv(g, names, toBe, s) && !s.halted && At(s, 1, Fetching) && 0 < k < |s.pending|
    ensures Run(g, toBe, s, actions, s') && Inv(g, names, toBe, s') && !s'.halted && At(s', 1, Fetching)
    ensures k - 1 < |s'.pending| && s'.pending[k - 1] == s.pending[k] && s'.failed == s.failed
  {
    var s1 := Next(g, toBe, s, Fetch(1));
    StepInv(g, names, toBe, s, Fetch(1));
    RunOne(g, toBe, s, Fetch(1));
    var finish;
    finish, s' := FinishSecond(g, names, toBe, s1, k - 1);
    RunConcat(g, toBe, s, [Fetch(1)], s1, finish, s');
    actions := [Fetch(1)] + finish;
  }

  lemma FinishSecond(g: Graph, names: set<Component>, toBe: set<Component>, s: State, k: nat)
    returns (actions: seq<Action>, s': State)
    requires toBe <= names && Inv(g, names, toBe, s) && !s.halted
    requires |s.workers| >= 2 && s.workers[1].Building? && k < |s.pending|
    ensures Run(g, toBe, s, actions, s') && Inv(g, names, toBe, s') && !s'.halted && At(s', 1, Fetching)
    ensures k < |s'.pending| && s'.pending[k] == s.pending[k] && s'.failed == s.failed
  {
    var added := ListOf(Ready(g, toBe, s.m[s.workers[1].c := Finished]));
    var finish := Finish(1, true, added);
    var s1 := Next(g, toBe, s, finish);
    StepInv(g, names, toBe, s, finish);
    assert s1.pending[k] in s1.pending;
    RunOne(g, toBe, s, finish);
    s' := Next(g, toBe, s1, Check(1));
    StepInv(g, names, toBe, s1, Check(1));
    RunOne(g, toBe, s1, Check(1));
    RunConcat(g, toBe, s, [finish], s1, [Check(1)], s');
    actions := [finish] + [Check(1)];
  }
}
