/** CompileScheduler under fair scheduling: however the threads take turns, the program ends. */
module FairScheduling {
  import opened Components
  import opened CompileScheduler

  /** The turn of thread a.w: it takes its step a, or has returned; after os._exit nothing happens. */
  ghost predicate Turn(g: Graph, toBe: set<Component>, s: State, a: Action, s': State) {
    if s.halted || At(s, a.w, Returned) then s' == s
    else Enabled(g, toBe, s, a) && s' == Next(g, toBe, s, a)
  }

  /** An endless sequence of turns from the start of the threads. */
  ghost predicate Execution(g: Graph, names: set<Component>, toBe: set<Component>, threads: nat,
    states: nat -> State, turns: nat -> Action)
  {
    && Initial(g, names, toBe, threads, states(0))
    && forall n: nat {:trigger turns(n)} :: Turn(g, toBe, states(n), turns(n), states(n + 1))
  }

  /** Every thread gets its turn again and again: the lock is fair, and make returns. */
  ghost predicate Fair(threads: nat, turns: nat -> Action) {
    forall w: nat, n: nat :: w < threads ==> HasTurn(turns, w, n)
  }

  ghost predicate HasTurn(turns: nat -> Action, w: nat, n: nat) {
    exists k: nat :: TurnOf(turns, w, n, k)
  }

  ghost predicate TurnOf(turns: nat -> Action, w: nat, n: nat, k: nat) {
    n <= k && turns(k).w == w
  }

  ghost predicate AllReturned(s: State) {
    forall w :: 0 <= w < |s.workers| ==> s.workers[w] == Returned
  }

  /** Stopped after a failed build, or everything is built and every thread has returned. */
  ghost predicate Ended(s: State) {
    if s.halted then s.failed != {} else AllFinished(s.m) && AllReturned(s)
  }

  /** What every state of an execution satisfies. */
  ghost predicate Sound(g: Graph, names: set<Component>, toBe: set<Component>, threads: nat, s: State) {
    Inv(g, names, toBe, s) && |s.workers| == threads && FailuresRecorded(s) && (s.halted ==> s.failed != {})
  }

  lemma TurnSound(g: Graph, names: set<Component>, toBe: set<Component>, threads: nat, s: State, a: Action, s': State)
    requires toBe <= names && Sound(g, names, toBe, threads, s) && Turn(g, toBe, s, a, s')
    ensures Sound(g, names, toBe, threads, s')
  {
    if !s.halted && !At(s, a.w, Returned) {
      StepInv(g, names, toBe, s, a);
      RunOne(g, toBe, s, a);
      RunThreads(g, toBe, s, [a], s');
      if a.Exit? {
        assert At(s, a.w, Failing(s.workers[a.w].c));
      }
    }
  }

  lemma {:induction false} ExecutionSound(g: Graph, names: set<Component>, toBe: set<Component>, rank: Component -> nat,
      threads: nat, states: nat -> State, turns: nat -> Action, n: nat)
    requires Setup(g, names, toBe, rank) && Execution(g, names, toBe, threads, states, turns)
    ensures Sound(g, names, toBe, threads, states(n))
  {
    if n == 0 {
      InitialInv(g, names, toBe, rank, threads, states(0));
    } else {
      ExecutionSound(g, names, toBe, rank, threads, states, turns, n - 1);
      TurnSound(g, names, toBe, threads, states(n - 1), turns(n - 1), states(n));
    }
  }

  // ----- Progress -----

  /** How many fetches and finished builds are still to come, at most. */
  function Left(toBe: set<Component>, s: State): int {
    2 * |toBe| - 2 * (|s.queued| - |s.pending|) + Busy(s.workers)
  }

  lemma LeftBound(g: Graph, names: set<Component>, toBe: set<Component>, s: State)
    requires Inv(g, names, toBe, s)
    ensures Left(toBe, s) >= 0
  {
    ListSize(s.queued, toBe);
  }

  /** A turn that is neither a fetch nor the end of a build changes only where its thread stands. */
  lemma TurnLeft(g: Graph, toBe: set<Component>, s: State, a: Action, s': State)
    requires Turn(g, toBe, s, a, s')
    ensures |s'.workers| == |s.workers| && forall v :: 0 <= v < |s.workers| && v != a.w ==>
      s'.workers[v] == s.workers[v]
    ensures Left(toBe, s') <= Left(toBe, s)
    ensures Left(toBe, s') == Left(toBe, s) ==> s'.m == s.m && s'.pending == s.pending && s'.failed == s.failed
    ensures !s.halted && At(s, a.w, s.workers[a.w]) && (a.Fetch? || a.Finish?) && !At(s, a.w, Returned) ==>
      Left(toBe, s') < Left(toBe, s)
  {
    if !s.halted && !At(s, a.w, Returned) && !a.Exit? {
      BusyUpdate(s.workers, a.w, s'.workers[a.w]);
    }
  }

  /** Nothing has happened but turns of other threads at the lock and at the empty queue. */
  ghost predicate Kept(toBe: set<Component>, s: State, s': State, w: nat) {
    && |s'.workers| == |s.workers| && s'.m == s.m && s'.pending == s.pending && s'.failed == s.failed
    && Left(toBe, s') == Left(toBe, s) && (w < |s.workers| ==> s'.workers[w] == s.workers[w])
  }

  /** A fetch or the end of a build. */
  ghost predicate Drops(toBe: set<Component>, s: State, s': State) {
    Left(toBe, s') < Left(toBe, s)
  }

  /** Up to the next turn of thread w the state is kept, unless there is a fetch or the end of a build before. */
  lemma {:induction false} Await(g: Graph, names: set<Component>, toBe: set<Component>, threads: nat,
      states: nat -> State, turns: nat -> Action, w: nat, n: nat, k: nat) returns (j: nat)
    requires Execution(g, names, toBe, threads, states, turns) && TurnOf(turns, w, n, k)
    ensures n <= j && Kept(toBe, states(n), states(j), w)
    ensures turns(j).w == w || Drops(toBe, states(j), states(j + 1))
    decreases k - n
  {
    TurnLeft(g, toBe, states(n), turns(n), states(n + 1));
    if turns(n).w == w || Drops(toBe, states(n), states(n + 1)) {
      j := n;
    } else {
      j := Await(g, names, toBe, threads, states, turns, w, n + 1, k);
    }
  }

  /** The next turn of a thread that has work to do is a fetch, the end of a build or the end of the program. */
  ghost predicate HasWork(s: State, w: nat) {
    && w < |s.workers|
    && (s.workers[w].Building? || s.workers[w].Failing? || (s.workers[w].Fetching? && s.pending != []))
  }

  lemma WorkTurn(g: Graph, toBe: set<Component>, s: State, a: Action, s': State)
    requires HasWork(s, a.w) && Turn(g, toBe, s, a, s')
    ensures s'.halted || Drops(toBe, s, s')
  {
    TurnLeft(g, toBe, s, a, s');
  }

  lemma Advance(g: Graph, names: set<Component>, toBe: set<Component>, threads: nat,
      states: nat -> State, turns: nat -> Action, w: nat, n: nat) returns (j: nat)
    requires Execution(g, names, toBe, threads, states, turns) && Fair(threads, turns)
    requires w < threads && HasWork(states(n), w)
    ensures n < j && (states(j).halted || Drops(toBe, states(n), states(j)))
  {
    assert HasTurn(turns, w, n);
    var k: nat :| TurnOf(turns, w, n, k);
    var i := Await(g, names, toBe, threads, states, turns, w, n, k);
    if turns(i).w == w {
      WorkTurn(g, toBe, states(i), turns(i), states(i + 1));
    }
    j := i + 1;
  }

  /** While something is unfinished, some thread has work to do or will find it behind the check. */
  lemma SomeWork(g: Graph, names: set<Component>, toBe: set<Component>, rank: Component -> nat, threads: nat, s: State)
    returns (w: nat)
    requires Setup(g, names, toBe, rank) && Sound(g, names, toBe, threads, s) && threads > 0
    requires !s.halted && !AllFinished(s.m)
    ensures w < threads && (HasWork(s, w) || (s.workers[w] == Checking && s.pending != []))
  {
    if v, c :| At(s, v, Failing(c)) {
      w := v;
    } else {
      UnfinishedProceeds(g, names, toBe, rank, s);
      if v, c :| At(s, v, Building(c)) {
        w := v;
      } else {
        w :| At(s, w, Checking) || At(s, w, Fetching);
      }
    }
  }

  /** A thread that finds something unfinished goes on to the queue. */
  lemma CheckTurn(g: Graph, toBe: set<Component>, s: State, a: Action, s': State)
    requires At(s, a.w, Checking) && s.pending != [] && !AllFinished(s.m) && Turn(g, toBe, s, a, s')
    ensures s'.halted || (HasWork(s', a.w) && Left(toBe, s') == Left(toBe, s))
  {
    BusyUpdate(s.workers, a.w, Fetching);
  }

  lemma CheckAndAdvance(g: Graph, names: set<Component>, toBe: set<Component>, threads: nat,
      states: nat -> State, turns: nat -> Action, w: nat, n: nat) returns (j: nat)
    requires Execution(g, names, toBe, threads, states, turns) && Fair(threads, turns) && w < threads
    requires At(states(n), w, Checking) && states(n).pending != [] && !AllFinished(states(n).m)
    ensures n < j && (states(j).halted || Drops(toBe, states(n), states(j)))
  {
    assert HasTurn(turns, w, n);
    var k: nat :| TurnOf(turns, w, n, k);
    var i := Await(g, names, toBe, threads, states, turns, w, n, k);
    j := i + 1;
    if !Drops(toBe, states(i), states(j)) {
      CheckTurn(g, toBe, states(i), turns(i), states(j));
      if !states(j).halted {
        j := Advance(g, names, toBe, threads, states, turns, w, j);
      }
    }
  }

  /** While something is unfinished, there will be a fetch, the end of a build or the end of the program. */
  lemma Proceed(g: Graph, names: set<Component>, toBe: set<Component>, rank: Component -> nat, threads: nat,
      states: nat -> State, turns: nat -> Action, n: nat) returns (j: nat)
    requires Setup(g, names, toBe, rank) && threads > 0
    requires Execution(g, names, toBe, threads, states, turns) && Fair(threads, turns)
    requires !states(n).halted && !AllFinished(states(n).m)
    ensures n < j && (states(j).halted || Drops(toBe, states(n), states(j)))
  {
    ExecutionSound(g, names, toBe, rank, threads, states, turns, n);
    var w := SomeWork(g, names, toBe, rank, threads, states(n));
    if HasWork(states(n), w) {
      j := Advance(g, names, toBe, threads, states, turns, w, n);
    } else {
      j := CheckAndAdvance(g, names, toBe, threads, states, turns, w, n);
    }
  }

  lemma {:induction false} EverythingFinished(g: Graph, names: set<Component>, toBe: set<Component>,
      rank: Component -> nat, threads: nat, states: nat -> State, turns: nat -> Action, n: nat) returns (j: nat)
    requires Setup(g, names, toBe, rank) && threads > 0
    requires Execution(g, names, toBe, threads, states, turns) && Fair(threads, turns)
    ensures n <= j && (states(j).halted || AllFinished(states(j).m))
    decreases Left(toBe, states(n))
  {
    ExecutionSound(g, names, toBe, rank, threads, states, turns, n);
    LeftBound(g, names, toBe, states(n));
    if states(n).halted || AllFinished(states(n).m) {
      j := n;
    } else {
      j := Proceed(g, names, toBe, rank, threads, states, turns, n);
      if !states(j).halted {
        j := EverythingFinished(g, names, toBe, rank, threads, states, turns, j);
      }
    }
  }

  // ----- Return of the threads -----

  /** A stopped program stays stopped, what is finished stays finished and a thread that has returned stays so. */
  ghost predicate Persists(s: State, s': State) {
    && (s.halted ==> s' == s)
    && (AllFinished(s.m) ==> AllFinished(s'.m))
    && |s'.workers| == |s.workers|
    && forall w :: 0 <= w < |s.workers| && s.workers[w] == Returned ==> s'.workers[w] == Returned
  }

  lemma TurnPersists(g: Graph, names: set<Component>, toBe: set<Component>, s: State, a: Action, s': State)
    requires Inv(g, names, toBe, s) && Turn(g, toBe, s, a, s')
    ensures Persists(s, s')
  {
  }

  lemma {:induction false} ExecutionPersists(g: Graph, names: set<Component>, toBe: set<Component>,
      rank: Component -> nat, threads: nat, states: nat -> State, turns: nat -> Action, n: nat, k: nat)
    requires Setup(g, names, toBe, rank) && Execution(g, names, toBe, threads, states, turns) && n <= k
    ensures Persists(states(n), states(k))
    decreases k - n
  {
    if n < k {
      ExecutionSound(g, names, toBe, rank, threads, states, turns, n);
      TurnPersists(g, names, toBe, states(n), turns(n), states(n + 1));
      ExecutionPersists(g, names, toBe, rank, threads, states, turns, n + 1, k);
    }
  }

  /** When everything is finished a thread at the empty queue gets back to the check, and then returns. */
  lemma LastTurn(g: Graph, toBe: set<Component>, s: State, a: Action, s': State)
    requires Turn(g, toBe, s, a, s') && AllFinished(s.m) && !s'.halted && !Drops(toBe, s, s') && a.w < |s.workers|
    ensures s'.workers[a.w] == if s.workers[a.w] == Fetching then Checking else Returned
    ensures Left(toBe, s') == Left(toBe, s)
  {
    TurnLeft(g, toBe, s, a, s');
  }

  lemma {:induction false} ThreadReturns(g: Graph, names: set<Component>, toBe: set<Component>, rank: Component -> nat,
      threads: nat, states: nat -> State, turns: nat -> Action, w: nat, n: nat) returns (j: nat)
    requires Setup(g, names, toBe, rank) && w < threads && AllFinished(states(n).m)
    requires Execution(g, names, toBe, threads, states, turns) && Fair(threads, turns)
    ensures n <= j && (states(j).halted || At(states(j), w, Returned))
    decreases Left(toBe, states(n)), if At(states(n), w, Fetching) then 1 else 0
  {
    ExecutionSound(g, names, toBe, rank, threads, states, turns, n);
    LeftBound(g, names, toBe, states(n));
    assert HasTurn(turns, w, n);
    var k: nat :| TurnOf(turns, w, n, k);
    var i := Await(g, names, toBe, threads, states, turns, w, n, k);
    j := i + 1;
    ExecutionPersists(g, names, toBe, rank, threads, states, turns, n, j);
    if !states(j).halted {
      if Drops(toBe, states(i), states(j)) {
        j := ThreadReturns(g, names, toBe, rank, threads, states, turns, w, j);
      } else {
        LastTurn(g, toBe, states(i), turns(i), states(j));
        if !At(states(j), w, Returned) {
          j := ThreadReturns(g, names, toBe, rank, threads, states, turns, w, j);
        }
      }
    }
  }

  lemma {:induction false} ThreadsReturn(g: Graph, names: set<Component>, toBe: set<Component>, rank: Component -> nat,
      threads: nat, states: nat -> State, turns: nat -> Action, v: nat, n: nat) returns (j: nat)
    requires Setup(g, names, toBe, rank) && v <= threads && AllFinished(states(n).m)
    requires Execution(g, names, toBe, threads, states, turns) && Fair(threads, turns)
    ensures n <= j && AllFinished(states(j).m)
    ensures states(j).halted || forall w :: 0 <= w < v ==> At(states(j), w, Returned)
    decreases v
  {
    if v == 0 {
      j := n;
    } else {
      var i := ThreadsReturn(g, names, toBe, rank, threads, states, turns, v - 1, n);
      j := ThreadReturns(g, names, toBe, rank, threads, states, turns, v - 1, i);
      ExecutionPersists(g, names, toBe, rank, threads, states, turns, i, j);
      OneMore(states(i), states(j), v);
    }
  }

  lemma OneMore(s: State, s': State, v: nat)
    requires v > 0 && Persists(s, s') && (s'.halted || At(s', v - 1, Returned))
    requires s.halted || forall w :: 0 <= w < v - 1 ==> At(s, w, Returned)
    ensures s'.halted || forall w :: 0 <= w < v ==> At(s', w, Returned)
  {
    assert !s.halted ==> forall w :: 0 <= w < v - 1 ==> At(s, w, Returned) && At(s', w, Returned);
  }

  /** Under every fair schedule the program ends: with all components built and every thread returned, or,
      only after a failed build, with os._exit; and that is how it stays. */
  lemma FairExecutionEnds(g: Graph, names: set<Component>, toBe: set<Component>, rank: Component -> nat, threads: nat,
      states: nat -> State, turns: nat -> Action)
    requires Setup(g, names, toBe, rank) && threads > 0
    requires Execution(g, names, toBe, threads, states, turns) && Fair(threads, turns)
    ensures exists n: nat :: Ended(states(n)) && forall k: nat :: k >= n ==> states(k) == states(n)
  {
    var i := EverythingFinished(g, names, toBe, rank, threads, states, turns, 0);
    var n := i;
    if !states(i).halted {
      n := ThreadsReturn(g, names, toBe, rank, threads, states, turns, threads, i);
    }
    ExecutionSound(g, names, toBe, rank, threads, states, turns, n);
    assert forall w :: 0 <= w < threads ==> (At(states(n), w, Returned) <==> states(n).workers[w] == Returned);
    assert Ended(states(n));
    forall k: nat | k >= n
      ensures states(k) == states(n)
    {
      EndedStays(g, names, toBe, threads, states, turns, n, k);
    }
  }

  lemma {:induction false} EndedStays(g: Graph, names: set<Component>, toBe: set<Component>, threads: nat,
      states: nat -> State, turns: nat -> Action, n: nat, k: nat)
    requires Execution(g, names, toBe, threads, states, turns) && Ended(states(n)) && n <= k
    ensures states(k) == states(n)
    decreases k
  {
    if n < k {
      EndedStays(g, names, toBe, threads, states, turns, n, k - 1);
      assert Turn(g, toBe, states(k - 1), turns(k - 1), states(k));
    }
  }

  // ----- A fair schedule -----

  lemma ListExists(cs: set<Component>)
    ensures exists added :: Lists(added, cs)
  {
    var added := ListOf(cs);
  }

  /** What thread w does next, builds ending well. */
  ghost function Choice(g: Graph, toBe: set<Component>, s: State, w: nat): Action
    requires w < |s.workers|
  {
    match s.workers[w]
    case Checking => Check(w)
    case Fetching => if s.pending != [] then Fetch(w) else Timeout(w)
    case Building(c) =>
      ListExists(Ready(g, toBe, s.m[c := Finished]));
      var added :| Lists(added, Ready(g, toBe, s.m[c := Finished]));
      Finish(w, true, added)
    case Failing(_) => Exit(w)
    case Returned => Check(w)
  }

  ghost function AfterTurn(g: Graph, names: set<Component>, toBe: set<Component>, threads: nat, s: State,
      w: nat): (s': State)
    requires toBe <= names && Sound(g, names, toBe, threads, s) && w < threads
    ensures Turn(g, toBe, s, Choice(g, toBe, s, w), s') && Sound(g, names, toBe, threads, s')
  {
    var a := Choice(g, toBe, s, w);
    var s' := if s.halted || At(s, w, Returned) then s else Next(g, toBe, s, a);
    TurnSound(g, names, toBe, threads, s, a, s');
    s'
  }

  /** The threads take turns. */
  function Whose(threads: nat, n: nat): (w: nat)
    requires threads > 0
    ensures w < threads
  {
    if n == 0 then 0 else
    var w := Whose(threads, n - 1);
    if w + 1 < threads then w + 1 else 0
  }

  lemma {:induction false} WhoseTurn(threads: nat, w: nat, n: nat) returns (k: nat)
    requires w < threads
    ensures n <= k && Whose(threads, k) == w
    decreases if Whose(threads, n) <= w then w - Whose(threads, n) else threads - Whose(threads, n) + w
  {
    if Whose(threads, n) == w {
      k := n;
    } else {
      k := WhoseTurn(threads, w, n + 1);
    }
  }

  ghost function StateAt(g: Graph, names: set<Component>, toBe: set<Component>, threads: nat, s: State,
      n: nat): (s': State)
    requires toBe <= names && threads > 0 && Sound(g, names, toBe, threads, s)
    ensures Sound(g, names, toBe, threads, s')
  {
    if n == 0 then s
    else AfterTurn(g, names, toBe, threads, StateAt(g, names, toBe, threads, s, n - 1), Whose(threads, n - 1))
  }

  /** Every scheduler has a fair execution. */
  lemma FairExecutionExists(g: Graph, names: set<Component>, toBe: set<Component>, rank: Component -> nat, threads: nat)
    returns (states: nat -> State, turns: nat -> Action)
    requires Setup(g, names, toBe, rank) && threads > 0
    ensures Execution(g, names, toBe, threads, states, turns) && Fair(threads, turns)
  {
    var s := SomeInitial(g, names, toBe, threads);
    InitialInv(g, names, toBe, rank, threads, s);
    states := (n: nat) => StateAt(g, names, toBe, threads, s, n);
    turns := (n: nat) => Choice(g, toBe, StateAt(g, names, toBe, threads, s, n), Whose(threads, n));
    forall w: nat, n: nat | w < threads
      ensures HasTurn(turns, w, n)
    {
      var k := WhoseTurn(threads, w, n);
      assert TurnOf(turns, w, n, k);
    }
  }
}
