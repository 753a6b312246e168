/** BoostAsyncWriter: a queue of messages with one outstanding socket write. The strand makes every handler
    atomic, so the object is a state machine over write requests, write completions and shutdown. */
module BoostAsyncWriter {
  import opened Words

  /** A queued message (what is left of it) and its result callback. */
  datatype Item = Item(message: seq<byte>, cb: nat)

  /** A callback invocation; rejected marks a message that came after the shutdown. */
  datatype Call = Call(cb: nat, ok: bool, rejected: bool)

  /** How an accepted message ended: the bytes that reached the socket and the reported result. */
  datatype Done = Done(sent: nat, ok: bool)

  /** The members of the object, then what its environment has seen of it: whether an async_write is
      outstanding, the callbacks, the bytes on the wire, and the accepted messages with their endings. */
  datatype State = State(
    queue: seq<Item>, shutdown: bool, outstanding: bool, calls: seq<Call>, wire: seq<byte>,
    accepted: seq<Item>, done: seq<Done>, submitted: nat)

  /** A new writer. */
  predicate Initial(s: State) {
    && s.queue == [] && !s.shutdown && !s.outstanding && s.calls == [] && s.wire == []
    && s.accepted == [] && s.done == [] && s.submitted == 0
  }

  datatype Action =
    | Write(message: seq<byte>)             // writeImpl with the next callback
    | Complete(error: bool, transferred: nat) // handleWrite
    | Shutdown                              // handleShutdown

  /** A completion answers an outstanding write, with at most the bytes that were handed over. */
  predicate Enabled(s: State, a: Action) {
    a.Complete? ==> s.outstanding && s.queue != [] && a.transferred <= |s.queue[0].message|
  }

  function Rejections(queue: seq<Item>): seq<Call> {
    seq(|queue|, i requires 0 <= i < |queue| => Call(queue[i].cb, false, false))
  }

  function Unsent(n: nat): seq<Done> {
    seq(n, _ => Done(0, false))
  }

  function Next(s: State, a: Action): State
    requires Enabled(s, a)
  {
    match a
    case Shutdown => s.(shutdown := true)
    case Write(message) =>
      if s.shutdown then
        s.(calls := s.calls + [Call(s.submitted, false, true)], submitted := s.submitted + 1)
      else
        var item := Item(message, s.submitted);
        s.(queue := s.queue + [item], outstanding := true, accepted := s.accepted + [item],
          submitted := s.submitted + 1)
    case Complete(error, n) =>
      var front := s.queue[0];
      var wire := s.wire + front.message[..n];
      if error || n >= |front.message| then
        var sent := Original(s).message;
        var over := Done(if |sent| >= |front.message| then |sent| - |front.message| + n else 0, !error);
        var call := Call(front.cb, !error, false);
        if s.shutdown then
          s.(queue := [], outstanding := false, wire := wire, calls := s.calls + [call] + Rejections(s.queue[1..]),
             done := s.done + [over] + Unsent(|s.queue| - 1))
        else
          s.(queue := s.queue[1..], outstanding := |s.queue| > 1, wire := wire, calls := s.calls + [call],
            done := s.done + [over])
      else
        s.(queue := [front.(message := front.message[n..])] + s.queue[1..], wire := wire)
  }

  /** The message at the front of the queue as it was accepted. */
  function Original(s: State): Item {
    if |s.done| < |s.accepted| then s.accepted[|s.done|] else Item([], 0)
  }

  ghost predicate Run(s: State, actions: seq<Action>, s': State)
    decreases |actions|
  {
    if actions == [] then s' == s
    else Enabled(s, actions[0]) && Run(Next(s, actions[0]), actions[1..], s')
  }

  // ----- The object -----

  class Writer {
    var outQueue: seq<Item>
    var shutdown: bool
    // the environment: the buffer of the outstanding async_write, the result and shutdown callbacks made
    var inFlight: Option<seq<byte>>
    var calls: seq<Call>
    var shutdownCalls: nat
    ghost var wire: seq<byte>
    ghost var accepted: seq<Item>
    ghost var done: seq<Done>
    ghost var submitted: nat

    ghost function Abstract(): State
      reads this
    {
      State(outQueue, shutdown, inFlight.Some?, calls, wire, accepted, done, submitted)
    }

    /** What is handed to the socket is the front of the queue. */
    ghost predicate Valid()
      reads this
    {
      if outQueue == [] then inFlight == None else inFlight == Some(outQueue[0].message)
    }

    constructor ()
      ensures Valid() && Initial(Abstract()) && shutdownCalls == 0
    {
      outQueue, shutdown, inFlight, calls, shutdownCalls := [], false, None, [], 0;
      wire, accepted, done, submitted := [], [], [], 0;
    }

    /** write(): hands the front message to async_write. */
    method StartWrite()
      requires outQueue != []
      modifies `inFlight
      ensures inFlight == Some(outQueue[0].message)
    {
      inFlight := Some(outQueue[0].message);
    }

    /** The callbacks are numbered in the order of the requests. */
    method WriteImpl(message: seq<byte>, resultCb: nat)
      requires Valid() && resultCb == submitted
      modifies this
      ensures Valid() && Abstract() == Next(old(Abstract()), Write(message)) && shutdownCalls == old(shutdownCalls)
      ensures if old(shutdown) then calls == old(calls) + [Call(resultCb, false, true)] && outQueue == old(outQueue)
        else calls == old(calls) && outQueue == old(outQueue) + [Item(message, resultCb)]
    {
      if shutdown {
        calls := calls + [Call(resultCb, false, true)];
      } else {
        outQueue := outQueue + [Item(message, resultCb)];
        accepted := accepted + [Item(message, submitted)];
        if |outQueue| == 1 {
          StartWrite();
        }
      }
      submitted := submitted + 1;
    }

    method HandleShutdown()
      requires Valid()
      modifies `shutdown, `shutdownCalls
      ensures Valid() && Abstract() == Next(old(Abstract()), Shutdown) && shutdownCalls == old(shutdownCalls) + 1
    {
      shutdown := true;
      shutdownCalls := shutdownCalls + 1;
    }

    method HandleWrite(error: bool, bytesTransferred: nat)
      requires Valid() && Enabled(Abstract(), Complete(error, bytesTransferred))
      modifies this
      ensures Valid() && Abstract() == Next(old(Abstract()), Complete(error, bytesTransferred))
      ensures shutdownCalls == old(shutdownCalls)
      ensures if error || bytesTransferred >= |old(outQueue)[0].message| then
          old(calls) + [Call(old(outQueue)[0].cb, !error, false)] <= calls
        else calls == old(calls)
    {
      var firstElem := outQueue[0];
      ghost var s, over := Abstract(), Next(Abstract(), Complete(error, bytesTransferred));
      wire := wire + firstElem.message[..bytesTransferred];
      inFlight := None;
      if error || bytesTransferred >= |firstElem.message| {
        outQueue := outQueue[1..];
        done := done + [over.done[|done|]];
        if shutdown {
          calls := calls + [Call(firstElem.cb, !error, false)];
          ClearQueue();
          return;
        }
        if outQueue != [] {
          StartWrite();
        }
        calls := calls + [Call(firstElem.cb, !error, false)];
      } else {
        outQueue := [firstElem.(message := firstElem.message[bytesTransferred..])] + outQueue[1..];
        StartWrite();
      }
    }

    method ClearQueue()
      modifies `outQueue, `calls, `done
      ensures outQueue == [] && calls == old(calls) + Rejections(old(outQueue))
      ensures done == old(done) + Unsent(|old(outQueue)|)
    {
      ghost var i := 0;
      while outQueue != []
        invariant 0 <= i <= |old(outQueue)| && outQueue == old(outQueue)[i..]
        invariant calls == old(calls) + Rejections(old(outQueue)[..i]) && done == old(done) + Unsent(i)
        decreases |outQueue|
      {
        calls := calls + [Call(outQueue[0].cb, false, false)];
        done := done + [Done(0, false)];
        outQueue := outQueue[1..];
        i := i + 1;
        assert Rejections(old(outQueue)[..i]) ==
          Rejections(old(outQueue)[..i - 1]) + [Call(old(outQueue)[i - 1].cb, false, false)];
        assert Unsent(i) == Unsent(i - 1) + [Done(0, false)];
      }
      assert old(outQueue)[..i] == old(outQueue);
    }
  }

  // ----- What every run keeps -----

  /** The bytes that reached the wire for the messages that have ended. */
  function Sent(accepted: seq<Item>, done: seq<Done>): seq<byte>
    requires |done| <= |accepted|
    requires forall i :: 0 <= i < |done| ==> done[i].sent <= |accepted[i].message|
  {
    if done == [] then [] else
    var n := |done| - 1;
    Sent(accepted, done[..n]) + accepted[n].message[..done[n].sent]
  }

  /** All bytes of the messages. */
  function Stream(items: seq<Item>): seq<byte> {
    if items == [] then [] else Stream(items[..|items| - 1]) + items[|items| - 1].message
  }

  /** The callbacks of accepted messages, in the order they were made. */
  function Answers(calls: seq<Call>): seq<Call> {
    if calls == [] then [] else
    Answers(calls[..|calls| - 1]) + (if calls[|calls| - 1].rejected then [] else [calls[|calls| - 1]])
  }

  function Count(calls: seq<Call>, cb: nat): nat {
    if calls == [] then 0 else
    Count(calls[..|calls| - 1], cb) + (if calls[|calls| - 1].cb == cb then 1 else 0)
  }

  predicate Waiting(s: State, cb: nat) {
    exists i :: 0 <= i < |s.queue| && s.queue[i].cb == cb
  }

  ghost predicate Inv(s: State) {
    && (s.outstanding <==> s.queue != [])
    && QueueInv(s) && WireInv(s) && CallInv(s)
  }

  /** The queue holds what is left of the accepted messages that have not ended. */
  ghost predicate QueueInv(s: State) {
    && |s.done| + |s.queue| == |s.accepted|
    && (forall i :: 0 <= i < |s.queue| ==> s.queue[i].cb == s.accepted[|s.done| + i].cb)
    && (forall i :: 0 < i < |s.queue| ==> s.queue[i].message == s.accepted[|s.done| + i].message)
    && (s.queue != [] ==>
         var whole, left := s.accepted[|s.done|].message, s.queue[0].message;
         |left| <= |whole| && left == whole[|whole| - |left|..])
  }

  /** The part of the front message that has been written already. */
  function FrontSent(s: State): seq<byte> {
    if s.queue == [] || |Original(s).message| < |s.queue[0].message| then []
    else Original(s).message[..|Original(s).message| - |s.queue[0].message|]
  }

  ghost predicate WireInv(s: State) {
    && |s.done| <= |s.accepted|
    && (forall i :: 0 <= i < |s.done| ==>
         s.done[i].sent <= |s.accepted[i].message| && (s.done[i].ok ==> s.done[i].sent == |s.accepted[i].message|))
    && s.wire == Sent(s.accepted, s.done) + FrontSent(s)
  }

  ghost predicate CallInv(s: State) {
    && |s.done| <= |s.accepted|
    && |Answers(s.calls)| == |s.done|
    && (forall i :: 0 <= i < |s.done| ==> Answers(s.calls)[i] == Call(s.accepted[i].cb, s.done[i].ok, false))
    && (forall i :: 0 <= i < |s.accepted| ==> s.accepted[i].cb < s.submitted)
    && (forall i, j :: 0 <= i < j < |s.accepted| ==> s.accepted[i].cb < s.accepted[j].cb)
    && (forall cb: nat :: Count(s.calls, cb) == if cb < s.submitted && !Waiting(s, cb) then 1 else 0)
  }

  // ----- Preservation -----

  /** The front message ends after n more bytes with the given result. */
  function EndFront(s: State, n: nat, ok: bool): State
    requires s.queue != [] && n <= |s.queue[0].message| <= |Original(s).message|
  {
    var front := s.queue[0];
    s.(queue := s.queue[1..], outstanding := |s.queue| > 1, wire := s.wire + front.message[..n],
       calls := s.calls + [Call(front.cb, ok, false)],
       done := s.done + [Done(|Original(s).message| - |front.message| + n, ok)])
  }

  lemma {:induction false} AppendCall(calls: seq<Call>, c: Call)
    ensures Answers(calls + [c]) == Answers(calls) + (if c.rejected then [] else [c])
    ensures forall cb: nat :: Count(calls + [c], cb) == Count(calls, cb) + if c.cb == cb then 1 else 0
  {
    assert (calls + [c])[..|calls|] == calls;
  }

  /** Sent looks only at the messages that have ended. */
  lemma {:induction false} SentPrefix(a: seq<Item>, b: seq<Item>, done: seq<Done>)
    requires |done| <= |a| <= |b| && a == b[..|a|]
    requires forall i :: 0 <= i < |done| ==> done[i].sent <= |a[i].message|
    ensures Sent(b, done) == Sent(a, done)
    decreases |done|
  {
    if done != [] {
      SentPrefix(a, b, done[..|done| - 1]);
    }
  }

  lemma EndFrontQueue(s: State, n: nat, ok: bool)
    requires QueueInv(s) && s.queue != [] && n <= |s.queue[0].message|
    ensures QueueInv(EndFront(s, n, ok))
  {
    var s' := EndFront(s, n, ok);
    assert forall i :: 0 <= i < |s'.queue| ==> s'.queue[i] == s.queue[i + 1];
  }

  lemma EndFrontWhole(s: State, n: nat, ok: bool)
    requires QueueInv(s) && s.queue != [] && n <= |s.queue[0].message|
    ensures FrontSent(EndFront(s, n, ok)) == []
  {
    var s' := EndFront(s, n, ok);
    assert s'.queue != [] ==> s'.queue[0] == s.queue[1];
  }

  lemma {:induction false} SentMore(accepted: seq<Item>, done: seq<Done>, last: Done)
    requires |done| < |accepted| && last.sent <= |accepted[|done|].message|
    requires forall i :: 0 <= i < |done| ==> done[i].sent <= |accepted[i].message|
    ensures Sent(accepted, done + [last]) == Sent(accepted, done) + accepted[|done|].message[..last.sent]
  {
    assert (done + [last])[..|done|] == done;
  }

  /** The next n bytes of a message of which k bytes are gone. */
  lemma {:induction false} WireMore(wire: seq<byte>, accepted: seq<Item>, done: seq<Done>, left: seq<byte>, n: nat,
      last: Done)
    requires |done| < |accepted| && forall i :: 0 <= i < |done| ==> done[i].sent <= |accepted[i].message|
    requires n <= |left| <= |accepted[|done|].message|
    requires last.sent == |accepted[|done|].message| - |left| + n
    requires left == accepted[|done|].message[|accepted[|done|].message| - |left|..]
    requires wire == Sent(accepted, done) + accepted[|done|].message[..|accepted[|done|].message| - |left|]
    ensures wire + left[..n] == Sent(accepted, done + [last])
  {
    var whole := accepted[|done|].message;
    var k := |whole| - |left|;
    SentMore(accepted, done, last);
    assert whole[..k + n] == whole[..k] + left[..n];
  }

  lemma {:induction false} EndFrontWire(s: State, n: nat, ok: bool)
    requires WireInv(s) && s.queue != [] && |s.done| < |s.accepted|
    requires n <= |s.queue[0].message| && (ok ==> n == |s.queue[0].message|)
    requires |s.queue[0].message| <= |Original(s).message|
    requires s.queue[0].message == Original(s).message[|Original(s).message| - |s.queue[0].message|..]
    requires FrontSent(EndFront(s, n, ok)) == []
    ensures WireInv(EndFront(s, n, ok))
  {
    var left, whole := s.queue[0].message, Original(s).message;
    var last := Done(|whole| - |left| + n, ok);
    assert FrontSent(s) == whole[..|whole| - |left|];
    WireMore(s.wire, s.accepted, s.done, left, n, last);
    EndedWire(s, last, EndFront(s, n, ok));
  }

  lemma EndedWire(s: State, last: Done, s': State)
    requires WireInv(s) && |s.done| < |s.accepted| && s'.accepted == s.accepted && s'.done == s.done + [last]
    requires last.sent <= |Original(s).message| && (last.ok ==> last.sent == |Original(s).message|)
    requires s'.wire == Sent(s.accepted, s.done + [last]) && FrontSent(s') == []
    ensures WireInv(s')
  {
    assert s'.wire + [] == s'.wire;
  }

  lemma {:induction false} EndFrontCounts(s: State, n: nat, ok: bool)
    requires QueueInv(s) && CallInv(s) && s.queue != [] && n <= |s.queue[0].message|
    ensures var s' := EndFront(s, n, ok);
      forall x: nat :: Count(s'.calls, x) == if x < s'.submitted && !Waiting(s', x) then 1 else 0
  {
    var s' := EndFront(s, n, ok);
    var cb := s.queue[0].cb;
    AppendCall(s.calls, Call(cb, ok, false));
    assert Waiting(s, cb) && s.accepted[|s.done|].cb == cb;
    forall x: nat
      ensures Waiting(s', x) <==> Waiting(s, x) && x != cb
    {
      FrontLeaves(s, s', x);
    }
  }

  /** Without its front item the queue waits for the other callbacks. */
  lemma FrontLeaves(s: State, s': State, x: nat)
    requires QueueInv(s) && CallInv(s) && s.queue != [] && s'.queue == s.queue[1..]
    ensures Waiting(s', x) <==> Waiting(s, x) && x != s.queue[0].cb
  {
    if Waiting(s, x) && x != s.queue[0].cb {
      var i :| 0 <= i < |s.queue| && s.queue[i].cb == x;
      assert s'.queue[i - 1].cb == x;
    }
    if Waiting(s', x) {
      var i :| 0 <= i < |s'.queue| && s'.queue[i].cb == x;
      assert s.queue[i + 1].cb == x;
      assert s.accepted[|s.done|].cb < s.accepted[|s.done| + i + 1].cb;
    }
  }

  lemma {:induction false} EndFrontCalls(s: State, n: nat, ok: bool)
    requires QueueInv(s) && CallInv(s) && s.queue != [] && n <= |s.queue[0].message|
    ensures CallInv(EndFront(s, n, ok))
  {
    var s' := EndFront(s, n, ok);
    AppendCall(s.calls, Call(s.queue[0].cb, ok, false));
    EndFrontCounts(s, n, ok);
    assert s.queue[0].cb == s.accepted[|s.done|].cb;
    assert Answers(s'.calls) == Answers(s.calls) + [Call(s.accepted[|s.done|].cb, ok, false)];
    assert s'.accepted == s.accepted && |s'.done| == |s.done| + 1 && s'.submitted == s.submitted;
  }

  lemma EndFrontInv(s: State, n: nat, ok: bool)
    requires Inv(s) && s.queue != [] && n <= |s.queue[0].message| && (ok ==> n == |s.queue[0].message|)
    ensures Inv(EndFront(s, n, ok))
  {
    EndFrontQueue(s, n, ok);
    EndFrontWhole(s, n, ok);
    EndFrontWire(s, n, ok);
    EndFrontCalls(s, n, ok);
  }

  /** What clearQueue leaves. */
  function Cleared(s: State): State {
    s.(queue := [], outstanding := false, calls := s.calls + Rejections(s.queue), done := s.done + Unsent(|s.queue|))
  }

  lemma ClearedStep(s: State)
    requires s.queue != [] && |s.queue[0].message| == |Original(s).message|
    ensures Cleared(EndFront(s, 0, false)) == Cleared(s)
  {
    var call, over := Call(s.queue[0].cb, false, false), Done(0, false);
    assert Rejections(s.queue) == [call] + Rejections(s.queue[1..]);
    assert Unsent(|s.queue|) == [over] + Unsent(|s.queue| - 1);
    assert s.calls + ([call] + Rejections(s.queue[1..])) == (s.calls + [call]) + Rejections(s.queue[1..]);
    assert s.done + ([over] + Unsent(|s.queue| - 1)) == (s.done + [over]) + Unsent(|s.queue| - 1);
    assert s.wire + s.queue[0].message[..0] == s.wire;
  }

  lemma ClearedEmpty(s: State)
    requires s.queue == [] && !s.outstanding
    ensures Cleared(s) == s
  {
    assert s.calls + Rejections([]) == s.calls && s.done + Unsent(0) == s.done;
  }

  lemma FrontWhole(s: State)
    requires Inv(s)
    ensures s.queue != [] ==> (FrontSent(s) == [] <==> s.queue[0].message == Original(s).message)
    ensures s.queue != [] ==> (FrontSent(s) == [] <==> |s.queue[0].message| == |Original(s).message|)
  {
  }

  /** clearQueue ends one message after the other, without a byte written. */
  lemma {:induction false} ClearedInv(s: State)
    requires Inv(s) && FrontSent(s) == []
    ensures Inv(Cleared(s))
    decreases |s.queue|
  {
    if s.queue == [] {
      ClearedEmpty(s);
    } else {
      FrontWhole(s);
      EndFrontInv(s, 0, false);
      EndFrontWhole(s, 0, false);
      ClearedInv(EndFront(s, 0, false));
      ClearedStep(s);
    }
  }

  lemma RejectInv(s: State, message: seq<byte>)
    requires Inv(s) && s.shutdown
    ensures Inv(Next(s, Write(message)))
  {
    var s' := Next(s, Write(message));
    RejectCalls(s, message);
    assert QueueInv(s') && WireInv(s') by {
      assert FrontSent(s') == FrontSent(s);
    }
  }

  lemma RejectCalls(s: State, message: seq<byte>)
    requires QueueInv(s) && CallInv(s) && s.shutdown
    ensures CallInv(Next(s, Write(message)))
  {
    var s' := Next(s, Write(message));
    AppendCall(s.calls, Call(s.submitted, false, true));
    forall x: nat
      ensures Waiting(s', x) <==> Waiting(s, x)
      ensures Waiting(s, x) ==> x < s.submitted
    {
      if Waiting(s, x) {
        var i :| 0 <= i < |s.queue| && s.queue[i].cb == x;
        assert s'.queue[i].cb == x && s.accepted[|s.done| + i].cb == x;
      }
    }
  }

  lemma AcceptWaiting(s: State, message: seq<byte>)
    requires Inv(s) && !s.shutdown
    ensures var s' := Next(s, Write(message));
      forall x: nat :: Waiting(s', x) <==> Waiting(s, x) || x == s.submitted
  {
    var s' := Next(s, Write(message));
    forall x: nat
      ensures Waiting(s', x) <==> Waiting(s, x) || x == s.submitted
    {
      if Waiting(s, x) {
        var i :| 0 <= i < |s.queue| && s.queue[i].cb == x;
        assert s'.queue[i].cb == x;
      }
      assert s'.queue[|s.queue|].cb == s.submitted;
    }
  }

  lemma AcceptQueue(s: State, message: seq<byte>)
    requires QueueInv(s) && !s.shutdown
    ensures var s' := Next(s, Write(message)); QueueInv(s') && FrontSent(s') == FrontSent(s)
  {
    var s' := Next(s, Write(message));
    assert forall i :: 0 <= i < |s.queue| ==> s'.queue[i] == s.queue[i];
    assert forall i :: 0 <= i < |s.accepted| ==> s'.accepted[i] == s.accepted[i];
    assert s.queue != [] ==> s'.queue[0] == s.queue[0] && Original(s') == Original(s);
    assert s.queue == [] ==> s'.queue[0] == Original(s');
  }

  lemma AcceptWire(s: State, message: seq<byte>)
    requires QueueInv(s) && WireInv(s) && !s.shutdown
    ensures WireInv(Next(s, Write(message)))
  {
    var s' := Next(s, Write(message));
    AcceptQueue(s, message);
    SentPrefix(s.accepted, s'.accepted, s.done);
    assert forall i :: 0 <= i < |s.accepted| ==> s'.accepted[i] == s.accepted[i];
  }

  lemma AcceptInv(s: State, message: seq<byte>)
    requires Inv(s) && !s.shutdown
    ensures Inv(Next(s, Write(message)))
  {
    AcceptQueue(s, message);
    AcceptWire(s, message);
    AcceptCalls(s, message, Next(s, Write(message)));
  }

  lemma AcceptCalls(s: State, message: seq<byte>, s': State)
    requires Inv(s) && !s.shutdown && s' == Next(s, Write(message))
    ensures CallInv(s')
  {
    AcceptWaiting(s, message);
    assert forall i :: 0 <= i < |s.accepted| ==> s'.accepted[i] == s.accepted[i];
  }

  /** n bytes of the front message are written and the rest of it is handed over. */
  function Partial(s: State, n: nat): State
    requires s.queue != [] && n <= |s.queue[0].message|
  {
    var front := s.queue[0];
    s.(queue := [front.(message := front.message[n..])] + s.queue[1..], wire := s.wire + front.message[..n])
  }

  lemma PartialInv(s: State, n: nat)
    requires Inv(s) && s.queue != [] && n < |s.queue[0].message|
    ensures Inv(Partial(s, n))
  {
    PartialQueue(s, n);
    PartialWire(s, n);
    forall x: nat
      ensures Waiting(Partial(s, n), x) <==> Waiting(s, x)
    {
      PartialWaiting(s, n, x);
    }
  }

  lemma PartialWaiting(s: State, n: nat, x: nat)
    requires s.queue != [] && n <= |s.queue[0].message|
    ensures Waiting(Partial(s, n), x) <==> Waiting(s, x)
  {
    var s' := Partial(s, n);
    assert forall i :: 0 <= i < |s.queue| ==> s'.queue[i].cb == s.queue[i].cb;
    if Waiting(s, x) {
      var i :| 0 <= i < |s.queue| && s.queue[i].cb == x;
      assert s'.queue[i].cb == x;
    }
  }

  lemma PartialQueue(s: State, n: nat)
    requires QueueInv(s) && s.queue != [] && n < |s.queue[0].message|
    ensures QueueInv(Partial(s, n))
  {
    var s' := Partial(s, n);
    var whole, left := Original(s).message, s.queue[0].message;
    assert left[n..] == whole[|whole| - |left| + n..];
    assert forall i :: 0 < i < |s.queue| ==> s'.queue[i] == s.queue[i];
  }

  lemma PartialWire(s: State, n: nat)
    requires QueueInv(s) && WireInv(s) && s.queue != [] && n < |s.queue[0].message|
    ensures WireInv(Partial(s, n))
  {
    var s' := Partial(s, n);
    var whole, left := Original(s).message, s.queue[0].message;
    var k := |whole| - |left|;
    assert FrontSent(s) == whole[..k] && FrontSent(s') == whole[..k + n];
    MoreSent(Sent(s.accepted, s.done), whole, left, n);
  }

  lemma MoreSent(sent: seq<byte>, whole: seq<byte>, left: seq<byte>, n: nat)
    requires n <= |left| <= |whole| && left == whole[|whole| - |left|..]
    ensures var k := |whole| - |left|; sent + whole[..k] + left[..n] == sent + whole[..k + n]
  {
    var k := |whole| - |left|;
    assert whole[..k + n] == whole[..k] + left[..n];
  }

  /** A completion that ends the front message, in terms of EndFront and Cleared. */
  lemma CompleteEnds(s: State, error: bool, n: nat)
    requires Enabled(s, Complete(error, n)) && (error || n >= |s.queue[0].message|)
    requires |s.queue[0].message| <= |Original(s).message|
    ensures var s' := EndFront(s, n, !error); Next(s, Complete(error, n)) == if s.shutdown then Cleared(s') else s'
  {
    var s' := EndFront(s, n, !error);
    assert Cleared(s').done == s'.done + Unsent(|s.queue| - 1);
    assert Cleared(s').calls == s'.calls + Rejections(s.queue[1..]);
  }

  lemma CompleteInv(s: State, error: bool, n: nat)
    requires Inv(s) && Enabled(s, Complete(error, n))
    ensures Inv(Next(s, Complete(error, n)))
  {
    if error || n >= |s.queue[0].message| {
      CompleteEnds(s, error, n);
      EndFrontInv(s, n, !error);
      EndFrontWhole(s, n, !error);
      if s.shutdown {
        ClearedInv(EndFront(s, n, !error));
      }
    } else {
      assert Next(s, Complete(error, n)) == Partial(s, n);
      PartialInv(s, n);
    }
  }

  /** Every handler keeps the invariant. */
  lemma StepInv(s: State, a: Action)
    requires Inv(s) && Enabled(s, a)
    ensures Inv(Next(s, a))
  {
    match a
    case Write(message) => if s.shutdown { RejectInv(s, message); } else { AcceptInv(s, message); }
    case Complete(error, n) => CompleteInv(s, error, n);
    case Shutdown => ShutdownInv(s);
  }

  lemma ShutdownInv(s: State)
    requires Inv(s)
    ensures Inv(s.(shutdown := true))
  {
    var s' := s.(shutdown := true);
    assert forall x: nat :: Waiting(s', x) <==> Waiting(s, x);
    assert Original(s') == Original(s) && FrontSent(s') == FrontSent(s);
  }

  lemma {:induction false} RunInv(s: State, actions: seq<Action>, s': State)
    requires Inv(s) && Run(s, actions, s')
    ensures Inv(s')
    decreases |actions|
  {
    if actions != [] {
      StepInv(s, actions[0]);
      RunInv(Next(s, actions[0]), actions[1..], s');
    }
  }

  lemma InitialInv(s: State)
    requires Initial(s)
    ensures Inv(s) && Whole(s, 0)
  {
    assert forall cb: nat :: Count(s.calls, cb) == 0;
  }

  // ----- Whole runs -----

  /** What the invariant says about the requests: each was answered once or is still queued; the accepted ones
      are answered in the order in which they were accepted; a positive answer means the message was written. */
  ghost predicate Answered(s: State) {
    && (forall cb: nat :: Count(s.calls, cb) == if cb < s.submitted && !Waiting(s, cb) then 1 else 0)
    && |Answers(s.calls)| + |s.queue| == |s.accepted| && |s.done| == |Answers(s.calls)|
    && (forall i :: 0 <= i < |s.done| ==>
         && Answers(s.calls)[i].cb == s.accepted[i].cb
         && (Answers(s.calls)[i].ok ==> s.done[i].sent == |s.accepted[i].message|))
    && (forall i, j :: 0 <= i < j < |s.accepted| ==> s.accepted[i].cb < s.accepted[j].cb)
  }

  /** What each request is told, and which ones are accepted: the callbacks count the requests; those that came
      before the shutdown are accepted and the others are refused. */
  ghost predicate Told(s: State) {
    && |s.accepted| <= s.submitted && (!s.shutdown ==> s.submitted == |s.accepted|)
    && (forall i :: 0 <= i < |s.accepted| ==> s.accepted[i].cb == i)
    && (forall i :: 0 <= i < |s.calls| ==> CallTold(s, s.calls[i]))
  }

  predicate CallTold(s: State, c: Call) {
    && c.cb < s.submitted && (c.rejected <==> c.cb >= |s.accepted|)
    && (c.rejected ==> !c.ok)
    && (c.ok ==> c.cb < |s.done| && s.done[c.cb].ok)
  }

  lemma ToldMore(s: State, s': State, added: seq<Call>)
    requires Told(s) && s'.calls == s.calls + added && s'.accepted == s.accepted && s.done <= s'.done
    requires s'.submitted >= s.submitted && (!s'.shutdown ==> !s.shutdown && s'.submitted == s.submitted)
    requires forall i :: 0 <= i < |added| ==> CallTold(s', added[i])
    ensures Told(s')
  {
    forall i | 0 <= i < |s'.calls|
      ensures CallTold(s', s'.calls[i])
    {
      assert i < |s.calls| ==> s'.calls[i] == s.calls[i] && CallTold(s, s.calls[i]);
      assert i >= |s.calls| ==> s'.calls[i] == added[i - |s.calls|];
    }
  }

  lemma ToldWrite(s: State, message: seq<byte>)
    requires Told(s)
    ensures Told(Next(s, Write(message)))
  {
    var s' := Next(s, Write(message));
    if s.shutdown {
      ToldMore(s, s', [Call(s.submitted, false, true)]);
    } else {
      forall i | 0 <= i < |s.calls|
        ensures CallTold(s', s'.calls[i])
      {
        assert CallTold(s, s.calls[i]);
      }
    }
  }

  /** The completion after the shutdown tells everyone in the queue. */
  lemma ToldAll(s: State, s': State, call: Call, rest: seq<Item>)
    requires Told(s) && s'.calls == s.calls + ([call] + Rejections(rest)) && s'.accepted == s.accepted
    requires s.done <= s'.done && s'.submitted == s.submitted && s'.shutdown && CallTold(s', call)
    requires forall i :: 0 <= i < |rest| ==> rest[i].cb < |s.accepted|
    ensures Told(s')
  {
    var added := [call] + Rejections(rest);
    forall i | 0 <= i < |added|
      ensures CallTold(s', added[i])
    {
      assert i > 0 ==> added[i] == Call(rest[i - 1].cb, false, false);
    }
    ToldMore(s, s', added);
  }

  lemma ToldComplete(s: State, error: bool, n: nat)
    requires Inv(s) && Told(s) && Enabled(s, Complete(error, n))
    ensures Told(Next(s, Complete(error, n)))
  {
    var s' := Next(s, Complete(error, n));
    var front := s.queue[0];
    assert front.cb == s.accepted[|s.done|].cb == |s.done|;
    if error || n >= |front.message| {
      var call := Call(front.cb, !error, false);
      assert s'.done[|s.done|].ok <==> !error;
      if s.shutdown {
        assert s'.calls == s.calls + ([call] + Rejections(s.queue[1..]));
        assert forall i :: 0 < i < |s.queue| ==> s.queue[i].cb == s.accepted[|s.done| + i].cb;
        ToldAll(s, s', call, s.queue[1..]);
      } else {
        ToldMore(s, s', [call]);
      }
    } else {
      assert s'.calls == s.calls + [];
      ToldMore(s, s', []);
    }
  }

  lemma {:induction false} RunTold(s: State, actions: seq<Action>, s': State)
    requires Inv(s) && Told(s) && Run(s, actions, s')
    ensures Told(s')
    decreases |actions|
  {
    if actions != [] {
      var a := actions[0];
      StepInv(s, a);
      match a {
        case Write(message) => ToldWrite(s, message);
        case Complete(error, n) => ToldComplete(s, error, n);
        case Shutdown =>
          assert Next(s, a).calls == s.calls + [];
          ToldMore(s, Next(s, a), []);
      }
      RunTold(Next(s, a), actions[1..], s');
    }
  }

  /** The messages of the requests, in order. */
  function Requests(actions: seq<Action>): seq<seq<byte>> {
    if actions == [] then []
    else (if actions[0].Write? then [actions[0].message] else []) + Requests(actions[1..])
  }

  /** The actions before the first shutdown. */
  function BeforeShutdown(actions: seq<Action>): seq<Action> {
    if actions == [] || actions[0].Shutdown? then [] else [actions[0]] + BeforeShutdown(actions[1..])
  }

  function MessagesOf(items: seq<Item>): (m: seq<seq<byte>>)
    ensures |m| == |items| && forall i :: 0 <= i < |m| ==> m[i] == items[i].message
  {
    seq(|items|, i requires 0 <= i < |items| => items[i].message)
  }

  /** Every request is counted, and exactly those before the first shutdown are accepted, as they were made. */
  lemma {:induction false} RunAccepts(s: State, actions: seq<Action>, s': State)
    requires Run(s, actions, s')
    ensures s'.submitted == s.submitted + |Requests(actions)|
    ensures MessagesOf(s'.accepted) ==
      MessagesOf(s.accepted) + if s.shutdown then [] else Requests(BeforeShutdown(actions))
    decreases |actions|
  {
    if actions != [] {
      StepAccepts(s, actions[0], actions[1..]);
      RunAccepts(Next(s, actions[0]), actions[1..], s');
    }
  }

  lemma StepAccepts(s: State, a: Action, rest: seq<Action>)
    requires Enabled(s, a)
    ensures var next := Next(s, a);
      && next.submitted + |Requests(rest)| == s.submitted + |Requests([a] + rest)|
      && MessagesOf(next.accepted) + (if next.shutdown then [] else Requests(BeforeShutdown(rest))) ==
         MessagesOf(s.accepted) + if s.shutdown then [] else Requests(BeforeShutdown([a] + rest))
  {
    var now: seq<seq<byte>> := if a.Write? then [a.message] else [];
    assert ([a] + rest)[1..] == rest;
    assert Requests([a] + rest) == now + Requests(rest);
    if !s.shutdown && !a.Shutdown? {
      assert BeforeShutdown([a] + rest)[1..] == BeforeShutdown(rest);
      assert MessagesOf(Next(s, a).accepted) == MessagesOf(s.accepted) + now;
    }
  }

  /** The bytes of the accepted message i are on the wire, behind what was sent of the messages before it. */
  ghost predicate OnWire(s: State, i: nat)
    requires i < |s.done| <= |s.accepted|
    requires forall j :: 0 <= j < |s.done| ==> s.done[j].sent <= |s.accepted[j].message|
  {
    Sent(s.accepted, s.done[..i]) + s.accepted[i].message <= s.wire
  }

  lemma {:induction false} SentGrows(accepted: seq<Item>, done: seq<Done>, i: nat)
    requires i <= |done| <= |accepted|
    requires forall j :: 0 <= j < |done| ==> done[j].sent <= |accepted[j].message|
    ensures Sent(accepted, done[..i]) <= Sent(accepted, done)
    decreases |done|
  {
    if i == |done| {
      assert done[..i] == done;
    } else {
      SentGrows(accepted, done[..|done| - 1], i);
      assert done[..|done| - 1][..i] == done[..i];
    }
  }

  lemma WrittenWhole(s: State, i: nat)
    requires WireInv(s) && i < |s.done| && s.done[i].ok
    ensures OnWire(s, i)
  {
    SentGrows(s.accepted, s.done, i + 1);
    assert s.done[..i + 1][..i] == s.done[..i];
    assert s.accepted[i].message[..s.done[i].sent] == s.accepted[i].message;
  }

  /** Over every run: requests are refused exactly when they come after the shutdown, a refused request is told so,
      and a request that is told of success was accepted and all its bytes are on the wire. */
  lemma ToldTheTruth(start: State, actions: seq<Action>, s: State)
    requires Initial(start) && Run(start, actions, s)
    ensures s.submitted == |Requests(actions)|
    ensures MessagesOf(s.accepted) == Requests(BeforeShutdown(actions)) <= Requests(actions)
    ensures forall i :: 0 <= i < |s.calls| ==> Truthful(s, |Requests(BeforeShutdown(actions))|, s.calls[i])
  {
    InitialInv(start);
    RunInv(start, actions, s);
    RunTold(start, actions, s);
    RunAccepts(start, actions, s);
    AcceptedFirst(start, s, actions);
    forall i | 0 <= i < |s.calls|
      ensures Truthful(s, |s.accepted|, s.calls[i])
    {
      ToldTruthful(s, s.calls[i]);
    }
  }

  lemma AcceptedFirst(start: State, s: State, actions: seq<Action>)
    requires start.accepted == [] && !start.shutdown
    requires MessagesOf(s.accepted) ==
      MessagesOf(start.accepted) + if start.shutdown then [] else Requests(BeforeShutdown(actions))
    ensures MessagesOf(s.accepted) == Requests(BeforeShutdown(actions)) <= Requests(actions)
    ensures |s.accepted| == |Requests(BeforeShutdown(actions))|
  {
    assert [] + Requests(BeforeShutdown(actions)) == Requests(BeforeShutdown(actions));
    PrefixRequests(actions);
  }

  /** What the caller of a request is told is true; the first `accepted` requests came before the shutdown. */
  ghost predicate Truthful(s: State, accepted: nat, c: Call) {
    && (c.rejected <==> c.cb >= accepted)
    && (c.rejected ==> !c.ok)
    && (c.ok ==> WireInv(s) && c.cb < |s.done| && OnWire(s, c.cb))
  }

  lemma ToldTruthful(s: State, c: Call)
    requires WireInv(s) && CallTold(s, c)
    ensures Truthful(s, |s.accepted|, c)
  {
    if c.ok {
      WrittenWhole(s, c.cb);
    }
  }

  lemma {:induction false} PrefixRequests(actions: seq<Action>)
    ensures Requests(BeforeShutdown(actions)) <= Requests(actions)
  {
    if actions != [] && !actions[0].Shutdown? {
      PrefixRequests(actions[1..]);
      assert BeforeShutdown(actions)[1..] == BeforeShutdown(actions[1..]);
    }
  }

  lemma InvAnswered(s: State)
    requires Inv(s)
    ensures Answered(s)
  {
  }

  /** In every reachable state a write is outstanding exactly when something is queued, every request has been
      answered as Answered says, and the wire carries what was sent of the accepted messages, in order. */
  lemma WriterRuns(start: State, actions: seq<Action>, s: State)
    requires Initial(start) && Run(start, actions, s)
    ensures (s.outstanding <==> s.queue != []) && Answered(s) && WireInv(s)
    ensures s.queue == [] ==> forall cb: nat :: cb < s.submitted ==> Count(s.calls, cb) == 1
  {
    InitialInv(start);
    RunInv(start, actions, s);
    InvAnswered(s);
  }

  /** A completion that ends a message after the shutdown empties the queue for good. */
  lemma ShutdownDrains(s: State, error: bool, n: nat, later: seq<Action>, s': State)
    requires Inv(s) && s.shutdown && Enabled(s, Complete(error, n)) && (error || n >= |s.queue[0].message|)
    requires Run(Next(s, Complete(error, n)), later, s')
    ensures s'.queue == [] && s'.accepted == s.accepted && s'.wire == s.wire + s.queue[0].message[..n]
    ensures forall cb: nat :: cb < s'.submitted ==> Count(s'.calls, cb) == 1
  {
    StepInv(s, Complete(error, n));
    DrainedAfter(s, error, n, Next(s, Complete(error, n)), later, s');
  }

  lemma DrainedAfter(s: State, error: bool, n: nat, t: State, later: seq<Action>, s': State)
    requires s.shutdown && Enabled(s, Complete(error, n)) && (error || n >= |s.queue[0].message|)
    requires t == Next(s, Complete(error, n)) && Inv(t) && Run(t, later, s')
    ensures s'.queue == [] && s'.accepted == s.accepted && s'.wire == s.wire + s.queue[0].message[..n]
    ensures forall cb: nat :: cb < s'.submitted ==> Count(s'.calls, cb) == 1
  {
    RunInv(t, later, s');
    StaysDrained(t, later, s');
    InvAnswered(s');
  }

  lemma {:induction false} StaysDrained(s: State, actions: seq<Action>, s': State)
    requires s.shutdown && s.queue == [] && Run(s, actions, s')
    ensures s'.queue == [] && s'.accepted == s.accepted && s'.wire == s.wire
    decreases |actions|
  {
    if actions != [] {
      StaysDrained(Next(s, actions[0]), actions[1..], s');
    }
  }

  // ----- Runs without write errors -----

  ghost predicate NoErrors(actions: seq<Action>) {
    forall i :: 0 <= i < |actions| ==> !(actions[i].Complete? && actions[i].error)
  }

  /** The first k messages were written whole; the others that have ended were cleared after a shutdown. */
  ghost predicate Whole(s: State, k: nat) {
    && k <= |s.done| <= |s.accepted| && (k < |s.done| ==> s.queue == [] && s.shutdown)
    && forall i :: 0 <= i < |s.done| ==>
         s.done[i].sent == (if i < k then |s.accepted[i].message| else 0) && (s.done[i].ok <==> i < k)
  }

  lemma {:induction false} WholeStep(s: State, a: Action, k: nat) returns (k': nat)
    requires Inv(s) && Whole(s, k) && Enabled(s, a) && !(a.Complete? && a.error)
    ensures Whole(Next(s, a), k')
  {
    k' := k;
    match a
    case Write(message) =>
      assert forall i :: 0 <= i < |s.accepted| ==> Next(s, a).accepted[i] == s.accepted[i];
    case Shutdown =>
    case Complete(error, n) =>
      if n >= |s.queue[0].message| {
        k' := |s.done| + 1;
        WholeEnds(s, n, k);
      }
  }

  lemma WholeEnds(s: State, n: nat, k: nat)
    requires Inv(s) && Whole(s, k) && Enabled(s, Complete(false, n)) && n >= |s.queue[0].message|
    ensures Whole(Next(s, Complete(false, n)), |s.done| + 1)
  {
    var s' := Next(s, Complete(false, n));
    assert forall i :: 0 <= i < |s.done| ==> s'.done[i] == s.done[i];
  }

  lemma {:induction false} WholeRun(s: State, actions: seq<Action>, s': State, k: nat) returns (k': nat)
    requires Inv(s) && Whole(s, k) && Run(s, actions, s') && NoErrors(actions)
    ensures Whole(s', k')
    decreases |actions|
  {
    if actions == [] {
      k' := k;
    } else {
      StepInv(s, actions[0]);
      var k1 := WholeStep(s, actions[0], k);
      k' := WholeRun(Next(s, actions[0]), actions[1..], s', k1);
    }
  }

  lemma {:induction false} SentWhole(accepted: seq<Item>, done: seq<Done>, k: nat)
    requires k <= |done| <= |accepted|
    requires forall i :: 0 <= i < |done| ==> done[i].sent == if i < k then |accepted[i].message| else 0
    ensures Sent(accepted, done) == Stream(accepted[..k])
    decreases |done|
  {
    if done != [] {
      var n := |done| - 1;
      if k == |done| {
        SentWhole(accepted, done[..n], n);
        assert accepted[..k][..n] == accepted[..n];
        assert accepted[n].message[..done[n].sent] == accepted[n].message;
      } else {
        SentWhole(accepted, done[..n], k);
        assert accepted[n].message[..0] == [];
      }
    }
  }

  lemma {:induction false} StreamPrefix(items: seq<Item>, k: nat, j: nat)
    requires k <= |items| && (k < |items| ==> j <= |items[k].message|) && (k == |items| ==> j == 0)
    ensures Stream(items[..k]) + (if k < |items| then items[k].message[..j] else []) <= Stream(items)
    decreases |items|
  {
    var n := |items| - 1;
    if k == |items| {
      assert items[..k] == items;
    } else if k < n {
      StreamPrefix(items[..n], k, j);
      assert items[..n][..k] == items[..k];
    } else {
      assert items[n].message == items[n].message[..j] + items[n].message[j..];
    }
  }

  /** Without write errors the wire carries a prefix of the accepted messages, concatenated in order, even when
      completions are partial; and all of them once the queue has drained, as long as there was no shutdown. */
  lemma WirePrefix(start: State, actions: seq<Action>, s: State)
    requires Initial(start) && Run(start, actions, s) && NoErrors(actions)
    ensures s.wire <= Stream(s.accepted)
    ensures s.queue == [] && !s.shutdown ==> s.wire == Stream(s.accepted)
    ensures exists k :: ToldUpTo(s, k)
  {
    InitialInv(start);
    RunInv(start, actions, s);
    var k := WholeRun(start, actions, s, 0);
    WholePrefix(s, k);
  }

  /** Of the accepted messages that have ended, the first k were written and are told of success; the others are told of
      failure, and there are none without a shutdown. */
  ghost predicate ToldUpTo(s: State, k: nat) {
    && k <= |Answers(s.calls)| && k <= |s.accepted| && Stream(s.accepted[..k]) <= s.wire
    && (forall i :: 0 <= i < |Answers(s.calls)| ==> (Answers(s.calls)[i].ok <==> i < k))
    && (!s.shutdown ==> k == |Answers(s.calls)|)
  }

  lemma WholePrefix(s: State, k: nat)
    requires Inv(s) && Whole(s, k)
    ensures ToldUpTo(s, k)
    ensures s.wire <= Stream(s.accepted)
    ensures s.queue == [] && !s.shutdown ==> s.wire == Stream(s.accepted)
  {
    SentWhole(s.accepted, s.done, k);
    if s.queue != [] {
      StreamPrefix(s.accepted, k, |FrontSent(s)|);
    } else {
      StreamPrefix(s.accepted, k, 0);
      assert s.accepted[..|s.accepted|] == s.accepted;
    }
  }
}
