/** The frame decoder on values: what one decode call, one callDecode loop and one channelRead do to
    the unread bytes, however the stream is cut into chunks. */
module FrameStream {
  import opened Words
  import Codec = HeapCharBufUtil

  datatype Config = Config(
    maxFrameLength: int, lengthFieldOffset: int, lengthFieldLength: int,
    lengthAdjustment: int, initialBytesToStrip: int, failFast: bool, singleDecode: bool)
  {
    function EndOffset(): int {
      lengthFieldOffset + lengthFieldLength
    }

    /** What init accepts, for int arguments whose sum in decode does not overflow. */
    predicate Accepted() {
      && 0 < maxFrameLength <= INT_MAX
      && 0 <= lengthFieldOffset && 0 <= initialBytesToStrip <= INT_MAX
      && lengthFieldOffset <= maxFrameLength - lengthFieldLength
      && INT_MIN <= lengthAdjustment + EndOffset() <= INT_MAX
    }

    /** The field widths that getUnadjustedFrameLength can read. */
    predicate Supported() {
      lengthFieldLength in {1, 2, 4, 8}
    }

    predicate Valid() {
      Accepted() && Supported()
    }
  }

  /** discardingTooLongFrame_, tooLongFrameLength_ and bytesToDiscard_. */
  datatype Mode = Mode(discarding: bool, tooLong: int, toDiscard: int) {
    predicate Valid() {
      if discarding then tooLong > 0 && toDiscard > 0 else tooLong == 0 && toDiscard == 0
    }
  }

  const Idle := Mode(false, 0, 0)

  datatype Reason =
    | Unsupported
    | Negative(length: int)
    | BelowHeader(length: int)
    | BelowStrip(length: int)
    | TooLong(length: int)

  /** What a decode call hands over: nothing, a frame, or an exception. */
  datatype Event = Silent | Frame(bytes: seq<byte>) | Fail(reason: Reason)

  datatype Step = Step(consumed: nat, event: Event, mode: Mode)

  /** getUnadjustedFrameLength, with the field at an index of the bytes. */
  function FieldAt(cfg: Config, m: seq<byte>, index: nat): int
    requires cfg.Valid() && index + cfg.lengthFieldLength <= |m|
  {
    match cfg.lengthFieldLength
    case 1 => Codec.GetChar(m, index)
    case 2 => Codec.GetUShort(m, index)
    case 4 => Codec.GetUInt(m, index)
    case _ => Codec.GetLong(m, index)
  }

  /** The length field of the unread bytes s. */
  function FieldValue(cfg: Config, s: seq<byte>): int
    requires cfg.Valid() && |s| >= cfg.EndOffset()
  {
    FieldAt(cfg, s, cfg.lengthFieldOffset)
  }

  /** A length field in positional notation; one byte and eight bytes are read as signed numbers. */
  function Announced(field: seq<byte>): int {
    var u := Codec.FromBytes(field);
    if |field| == 1 || |field| == 8 then Codec.Signed(u, |field|) else u
  }

  lemma {:induction false} FieldAtIsBytes(cfg: Config, m: seq<byte>, index: nat)
    requires cfg.Valid() && index + cfg.lengthFieldLength <= |m|
    ensures FieldAt(cfg, m, index) == Announced(m[index..index + cfg.lengthFieldLength])
  {
    Codec.GettersReadBytes(m, index);
  }

  /** The length field is the bytes behind the offset, at every offset and width. */
  lemma {:induction false} FieldIsBytes(cfg: Config, s: seq<byte>)
    requires cfg.Valid() && |s| >= cfg.EndOffset()
    ensures var field := s[cfg.lengthFieldOffset..cfg.lengthFieldOffset + cfg.lengthFieldLength];
      FieldValue(cfg, s) ==
        if cfg.lengthFieldLength in {1, 8} then Codec.Signed(Codec.FromBytes(field), cfg.lengthFieldLength)
        else Codec.FromBytes(field)
  {
    FieldAtIsBytes(cfg, s, cfg.lengthFieldOffset);
  }

  /** The frame length the header announces, the sum taken in 64-bit arithmetic. */
  function FrameLength(cfg: Config, s: seq<byte>): int
    requires cfg.Valid() && |s| >= cfg.EndOffset()
  {
    ToInt64(FieldValue(cfg, s) + (cfg.lengthAdjustment + cfg.EndOffset()))
  }

  /** The announced length is the plain sum, unless an eight-byte field makes it overflow a long; it is then negative
      and the header is rejected. */
  lemma {:induction false} FrameLengthExact(cfg: Config, s: seq<byte>)
    requires cfg.Valid() && |s| >= cfg.EndOffset() && FieldValue(cfg, s) >= 0
    ensures var sum := FieldValue(cfg, s) + cfg.lengthAdjustment + cfg.lengthFieldOffset + cfg.lengthFieldLength;
      if sum < 0x8000_0000_0000_0000 then FrameLength(cfg, s) == sum
      else cfg.lengthFieldLength == 8 && FrameLength(cfg, s) < 0 && DecodeHeader(cfg, Idle, s).event.Fail?
  {
    FieldIsBytes(cfg, s);
    Codec.Powers();
  }

  /** decode on a frame of the adjusted length. */
  function FrameStep(cfg: Config, s: seq<byte>, length: int): (step: Step)
    requires cfg.Accepted() && length > 0
    ensures step.consumed <= |s| && step.mode.Valid()
  {
    if length > cfg.maxFrameLength then
      if length <= |s| then
        Step(length, Fail(TooLong(length)), Idle)
      else
        Step(|s|, if cfg.failFast then Fail(TooLong(length)) else Silent, Mode(true, length, length - |s|))
    else if |s| < length then
      Step(0, Silent, Idle)
    else if cfg.initialBytesToStrip > length then
      Step(length, Fail(BelowStrip(length)), Idle)
    else
      Step(length, Frame(s[cfg.initialBytesToStrip..length]), Idle)
  }

  /** decode on a complete header. */
  function HeaderStep(cfg: Config, s: seq<byte>, field: int, length: int): (step: Step)
    requires cfg.Valid() && |s| >= cfg.EndOffset()
    ensures step.consumed <= |s| && step.mode.Valid()
  {
    if field < 0 then Step(cfg.EndOffset(), Fail(Negative(field)), Idle)
    else if length < cfg.EndOffset() then Step(cfg.EndOffset(), Fail(BelowHeader(length)), Idle)
    else FrameStep(cfg, s, length)
  }

  /** decode from the length field on. */
  function DecodeHeader(cfg: Config, mode: Mode, s: seq<byte>): (step: Step)
    requires cfg.Accepted() && mode.Valid() && (mode.discarding ==> |s| < cfg.EndOffset())
    ensures step.consumed <= |s| && step.mode.Valid()
    ensures cfg.Supported() && step.consumed == 0 ==> step.event == Silent && step.mode == mode
  {
    if |s| < cfg.EndOffset() then
      Step(0, Silent, mode)
    else if !cfg.Supported() then
      Step(0, Fail(Unsupported), mode)
    else
      HeaderStep(cfg, s, FieldValue(cfg, s), FrameLength(cfg, s))
  }

  /** One decode call on the unread bytes s, for a count of bytes to discard that survives the cast to int:
      DiscardOverflow.MotionIsDecode. Only a supported field width can have entered discard mode. */
  function Decode(cfg: Config, mode: Mode, s: seq<byte>): (step: Step)
    requires cfg.Accepted() && mode.Valid() && (mode.discarding ==> cfg.Supported())
    ensures step.consumed <= |s| && step.mode.Valid()
    ensures cfg.Supported() && s != [] && step.consumed == 0 ==> step.event == Silent && step.mode == mode
  {
    if !mode.discarding then
      DecodeHeader(cfg, mode, s)
    else
      var n := Min(mode.toDiscard, |s|);
      if n < mode.toDiscard then
        Step(n, Silent, mode.(toDiscard := mode.toDiscard - n))
      else if cfg.failFast then
        var step := DecodeHeader(cfg, Idle, s[n..]);
        step.(consumed := n + step.consumed)
      else
        Step(n, Fail(TooLong(mode.tooLong)), Idle)
  }

  /** As long as the count fits an int, an accepted configuration makes every exception consume input if and only
      if its field width is supported. DiscardOverflow.CallDecodeEndsIff has the condition for every count. */
  lemma ProgressIffSupported(cfg: Config)
    requires cfg.Accepted()
    ensures cfg.lengthFieldLength in {1, 2, 4, 8} <==>
      forall mode: Mode, s: seq<byte> :: CanDecode(cfg, mode) && s != [] && Decode(cfg, mode, s).event.Fail? ==>
        Decode(cfg, mode, s).consumed > 0
  {
    if !cfg.Supported() {
      var s: seq<byte> := seq(Max(1, cfg.EndOffset()), _ => 0);
      assert CanDecode(cfg, Idle) && Decode(cfg, Idle, s) == Step(0, Fail(Unsupported), Idle);
    }
  }

  /** A mode that the decoder can be in, with a count that survives the cast to int. */
  predicate CanDecode(cfg: Config, mode: Mode) {
    mode.Valid() && mode.toDiscard <= INT_MAX && (mode.discarding ==> cfg.Supported())
  }

  /** No header of the stream announces a frame of which more than an int holds can be missing. */
  predicate StreamFits(cfg: Config, s: seq<byte>)
    requires cfg.Valid()
    decreases |s|
  {
    if |s| < cfg.EndOffset() then true
    else if FieldValue(cfg, s) < 0 || FrameLength(cfg, s) < cfg.EndOffset() then StreamFits(cfg, s[cfg.EndOffset()..])
    else
      var length := FrameLength(cfg, s);
      length - cfg.EndOffset() <= INT_MAX && (|s| < length || StreamFits(cfg, s[length..]))
  }

  /** However the bytes are cut, the count of bytes to discard survives the cast to int. */
  predicate HeadersFit(cfg: Config, mode: Mode, s: seq<byte>)
    requires cfg.Valid() && mode.Valid()
  {
    && mode.toDiscard <= INT_MAX
    && if mode.discarding then |s| >= mode.toDiscard ==> StreamFits(cfg, s[mode.toDiscard..]) else StreamFits(cfg, s)
  }

  function Emitted(event: Event): seq<Event> {
    if event == Silent then [] else [event]
  }

  function Frames(events: seq<Event>): seq<seq<byte>> {
    if events == [] then [] else (if events[0].Frame? then [events[0].bytes] else []) + Frames(events[1..])
  }

  predicate Failed(events: seq<Event>) {
    exists i :: 0 <= i < |events| && events[i].Fail?
  }

  lemma {:induction false} FramesConcat(a: seq<Event>, b: seq<Event>)
    ensures Frames(a + b) == Frames(a) + Frames(b)
  {
    if a == [] {
      assert a + b == b;
    } else {
      assert (a + b)[1..] == a[1..] + b;
      FramesConcat(a[1..], b);
    }
  }

  /** What a callDecode loop does: the events of its decode calls, the frames it passed on itself, the frame
      it leaves in `out`, and the mode and bytes that remain. */
  datatype Outcome = Outcome(events: seq<Event>, fired: seq<seq<byte>>, held: seq<seq<byte>>, mode: Mode,
    rest: seq<byte>)

  function Run(cfg: Config, mode: Mode, s: seq<byte>): (o: Outcome)
    requires cfg.Valid() && mode.Valid()
    ensures |o.rest| <= |s| && o.mode.Valid()
    decreases |s|
  {
    if s == [] then
      Outcome([], [], [], mode, [])
    else
      var step := Decode(cfg, mode, s);
      if step.consumed == 0 then
        Outcome([], [], [], mode, s)
      else
        var rest := s[step.consumed..];
        if step.event.Frame? && (rest == [] || cfg.singleDecode) then
          Outcome([step.event], [], [step.event.bytes], step.mode, rest)
        else
          var o := Run(cfg, step.mode, rest);
          var passed := if step.event.Frame? then [step.event.bytes] else [];
          o.(events := Emitted(step.event) + o.events, fired := passed + o.fired)
  }

  /** Every decoded frame was passed on in order, or is the one left in `out`. */
  lemma {:induction false} RunAccountsForFrames(cfg: Config, mode: Mode, s: seq<byte>)
    requires cfg.Valid() && mode.Valid()
    ensures var o := Run(cfg, mode, s); Frames(o.events) == o.fired + o.held && |o.held| <= 1
    decreases |s|
  {
    if s != [] {
      var step := Decode(cfg, mode, s);
      if step.consumed > 0 {
        var o := Run(cfg, step.mode, s[step.consumed..]);
        var passed := if step.event.Frame? then [step.event.bytes] else [];
        RunAccountsForFrames(cfg, step.mode, s[step.consumed..]);
        FramesConcat(Emitted(step.event), o.events);
        FramesOfOne(step.event);
        Associative(passed, o.fired, o.held);
      }
    }
  }

  lemma FramesOfOne(e: Event)
    ensures Frames(Emitted(e)) == (if e.Frame? then [e.bytes] else []) && Frames([e]) == Frames(Emitted(e))
  {
  }

  // ----- Fragmentation -----

  /** A run that starts in discard mode first skips what the cast count and the bytes allow; when that completes
      the discard it is the run of what follows, otherwise nothing is left to read. */
  lemma {:induction false} DiscardSkips(cfg: Config, mode: Mode, s: seq<byte>)
    requires cfg.Valid() && !cfg.singleDecode && mode.Valid() && mode.discarding && mode.toDiscard <= INT_MAX
    ensures
      var n, o := Min(ToInt32(mode.toDiscard), |s|), Run(cfg, mode, s);
      if n < mode.toDiscard then
        o.events == [] && o.held == [] && o.rest == [] && o.mode == mode.(toDiscard := mode.toDiscard - n)
      else
        var after := Run(cfg, Idle, s[n..]);
        && o.events == (if cfg.failFast then [] else [Fail(TooLong(mode.tooLong))]) + after.events
        && o.mode == after.mode && o.rest == after.rest && o.held == after.held
  {
    if |s| < mode.toDiscard {
      DiscardAll(cfg, mode, s);
    } else {
      DiscardThenRun(cfg, mode, s);
    }
  }

  lemma {:induction false} DiscardThenRun(cfg: Config, mode: Mode, s: seq<byte>)
    requires cfg.Valid() && !cfg.singleDecode && mode.Valid() && mode.discarding && mode.toDiscard <= |s|
    ensures
      var o, after := Run(cfg, mode, s), Run(cfg, Idle, s[mode.toDiscard..]);
      && o.events == (if cfg.failFast then [] else [Fail(TooLong(mode.tooLong))]) + after.events
      && o.mode == after.mode && o.rest == after.rest && o.held == after.held
  {
    var n := mode.toDiscard;
    var step := Decode(cfg, mode, s);
    if cfg.failFast {
      var next := DecodeHeader(cfg, Idle, s[n..]);
      assert s[step.consumed..] == s[n..][next.consumed..];
    }
  }

  lemma {:induction false} DiscardAll(cfg: Config, mode: Mode, s: seq<byte>)
    requires cfg.Valid() && mode.Valid() && mode.discarding && |s| < mode.toDiscard
    ensures var o := Run(cfg, mode, s);
      o.events == [] && o.held == [] && o.rest == [] && o.mode == mode.(toDiscard := mode.toDiscard - |s|)
  {
  }

  /** The header fields do not depend on what follows the header. */
  lemma HeaderPrefix(cfg: Config, a: seq<byte>, b: seq<byte>)
    requires cfg.Valid() && |a| >= cfg.EndOffset()
    ensures FieldValue(cfg, a + b) == FieldValue(cfg, a) && FrameLength(cfg, a + b) == FrameLength(cfg, a)
  {
  }

  lemma DropConcat<T>(a: seq<T>, b: seq<T>, k: nat)
    requires k <= |a|
    ensures (a + b)[k..] == a[k..] + b
  {
  }

  lemma DropPast<T>(a: seq<T>, b: seq<T>, k: nat)
    requires |a| <= k <= |a + b|
    ensures (a + b)[k..] == b[k - |a|..]
  {
  }

  lemma Associative<T>(a: seq<T>, b: seq<T>, c: seq<T>)
    ensures a + (b + c) == (a + b) + c
  {
  }

  predicate SameResult(z: Outcome, x: Outcome, y: Outcome) {
    z.events == x.events + y.events && z.mode == y.mode && z.rest == y.rest
  }

  /** Feeding a and then b has the effect of feeding a + b at once: same events, mode and unread bytes,
      from every mode, on every pair of byte strings, valid frames or not; and neither call meets a count
      that the cast to int would change. */
  lemma {:induction false} Fragmentation(cfg: Config, mode: Mode, a: seq<byte>, b: seq<byte>)
    requires cfg.Valid() && !cfg.singleDecode && mode.Valid() && HeadersFit(cfg, mode, a + b)
    ensures var x := Run(cfg, mode, a);
      && SameResult(Run(cfg, mode, a + b), x, Run(cfg, x.mode, x.rest + b))
      && mode.toDiscard <= INT_MAX && x.mode.toDiscard <= INT_MAX && HeadersFit(cfg, x.mode, x.rest + b)
  {
    FragmentRun(cfg, mode, a, b);
    FitsAfter(cfg, mode, a, b);
  }

  lemma {:induction false} FitsAfter(cfg: Config, mode: Mode, a: seq<byte>, b: seq<byte>)
    requires cfg.Valid() && mode.Valid() && HeadersFit(cfg, mode, a + b)
    ensures mode.toDiscard <= INT_MAX
    ensures var x := Run(cfg, mode, a);
      HeadersFit(cfg, x.mode, x.rest + b) && x.mode.toDiscard <= INT_MAX
    decreases |a|
  {
    if a == [] {
      assert a + b == [] + b;
    } else {
      var step := Decode(cfg, mode, a);
      FitsStep(cfg, mode, a, b);
      if step.consumed > 0 {
        FitsAfter(cfg, step.mode, a[step.consumed..], b);
      }
    }
  }

  lemma {:induction false} FitsStep(cfg: Config, mode: Mode, a: seq<byte>, b: seq<byte>)
    requires cfg.Valid() && mode.Valid() && HeadersFit(cfg, mode, a + b)
    ensures var step := Decode(cfg, mode, a);
      HeadersFit(cfg, step.mode, a[step.consumed..] + b)
  {
    if !mode.discarding {
      var step := FitsHeader(cfg, a, b);
    } else if |a| < mode.toDiscard {
      FitsWithin(cfg, mode, a, b);
    } else {
      FitsPast(cfg, mode, a, b);
    }
  }

  lemma {:induction false} FitsWithin(cfg: Config, mode: Mode, a: seq<byte>, b: seq<byte>)
    requires cfg.Valid() && mode.Valid() && mode.discarding && |a| < mode.toDiscard && HeadersFit(cfg, mode, a + b)
    ensures var step := Decode(cfg, mode, a);
      HeadersFit(cfg, step.mode, a[step.consumed..] + b)
  {
    assert a[|a|..] + b == b;
    if |a + b| >= mode.toDiscard {
      DropPast(a, b, mode.toDiscard);
    }
  }

  lemma {:induction false} FitsPast(cfg: Config, mode: Mode, a: seq<byte>, b: seq<byte>)
    requires cfg.Valid() && mode.Valid() && mode.discarding && mode.toDiscard <= |a| && HeadersFit(cfg, mode, a + b)
    ensures var step := Decode(cfg, mode, a);
      HeadersFit(cfg, step.mode, a[step.consumed..] + b)
  {
    var rest := a[mode.toDiscard..];
    DropConcat(a, b, mode.toDiscard);
    if cfg.failFast {
      var next := FitsHeader(cfg, rest, b);
      assert rest[next.consumed..] == a[mode.toDiscard + next.consumed..];
    }
  }

  lemma {:induction false} FitsHeader(cfg: Config, a: seq<byte>, b: seq<byte>) returns (step: Step)
    requires cfg.Valid() && StreamFits(cfg, a + b)
    ensures step == DecodeHeader(cfg, Idle, a) && HeadersFit(cfg, step.mode, a[step.consumed..] + b)
  {
    step := DecodeHeader(cfg, Idle, a);
    if |a| < cfg.EndOffset() {
      FitsShort(cfg, a, b, step);
    } else {
      var value, length := FieldValue(cfg, a), FrameLength(cfg, a);
      FitsBehind(cfg, a, b, value, length);
      FitsBranches(cfg, a, b, value, length, step);
    }
  }

  lemma FitsShort(cfg: Config, a: seq<byte>, b: seq<byte>, step: Step)
    requires cfg.Valid() && StreamFits(cfg, a + b) && |a| < cfg.EndOffset() && step == DecodeHeader(cfg, Idle, a)
    ensures HeadersFit(cfg, step.mode, a[step.consumed..] + b)
  {
    assert a[0..] == a;
  }

  /** What follows the stretch that the header of a announces fits. */
  predicate Behind(cfg: Config, a: seq<byte>, b: seq<byte>, value: int, length: int)
    requires cfg.Valid() && |a| >= cfg.EndOffset()
  {
    if value < 0 || length < cfg.EndOffset() then StreamFits(cfg, a[cfg.EndOffset()..] + b)
    else
      && length - cfg.EndOffset() <= INT_MAX
      && (length <= |a| ==> StreamFits(cfg, a[length..] + b))
      && (|a| < length <= |a + b| ==> StreamFits(cfg, b[length - |a|..]))
  }

  lemma {:induction false} FitsBehind(cfg: Config, a: seq<byte>, b: seq<byte>, value: int, length: int)
    requires cfg.Valid() && StreamFits(cfg, a + b) && |a| >= cfg.EndOffset()
    requires value == FieldValue(cfg, a) && length == FrameLength(cfg, a)
    ensures Behind(cfg, a, b, value, length)
  {
    HeaderPrefix(cfg, a, b);
    DropConcat(a, b, cfg.EndOffset());
    if 0 <= length <= |a| {
      DropConcat(a, b, length);
    } else if |a| < length <= |a + b| {
      DropPast(a, b, length);
    }
  }

  lemma {:induction false} FitsBranches(cfg: Config, a: seq<byte>, b: seq<byte>, value: int, length: int, step: Step)
    requires cfg.Valid() && |a| >= cfg.EndOffset() && StreamFits(cfg, a + b)
    requires value == FieldValue(cfg, a) && length == FrameLength(cfg, a) && step == DecodeHeader(cfg, Idle, a)
    requires Behind(cfg, a, b, value, length)
    ensures HeadersFit(cfg, step.mode, a[step.consumed..] + b)
  {
    if value >= 0 && length >= cfg.EndOffset() && length > |a| {
      if length > cfg.maxFrameLength {
        assert a[|a|..] + b == b;
      } else {
        assert a[0..] == a;
      }
    }
  }

  lemma {:induction false} FragmentRun(cfg: Config, mode: Mode, a: seq<byte>, b: seq<byte>)
    requires cfg.Valid() && !cfg.singleDecode && mode.Valid()
    ensures var x := Run(cfg, mode, a);
      SameResult(Run(cfg, mode, a + b), x, Run(cfg, x.mode, x.rest + b))
    decreases |a|
  {
    if a == [] {
      assert a + b == b && [] + b == b;
    } else if mode.discarding {
      FragmentDiscard(cfg, mode, a, b);
    } else {
      FragmentIdle(cfg, mode, a, b);
    }
  }

  lemma {:induction false} FragmentDiscard(cfg: Config, mode: Mode, a: seq<byte>, b: seq<byte>)
    requires cfg.Valid() && !cfg.singleDecode && mode.Valid() && mode.discarding && a != []
    ensures var x := Run(cfg, mode, a);
      SameResult(Run(cfg, mode, a + b), x, Run(cfg, x.mode, x.rest + b))
    decreases |a|, 0
  {
    var n := mode.toDiscard;
    if |a| < n {
      DiscardAll(cfg, mode, a);
      assert [] + b == b;
      FragmentWithinDiscard(cfg, mode, a, b, mode.(toDiscard := n - |a|));
    } else {
      var rest := a[n..];
      var x', z' := Run(cfg, Idle, rest), Run(cfg, Idle, rest + b);
      FragmentPastDiscard(cfg, mode, a, b, x', z');
      FragmentRun(cfg, Idle, rest, b);
      Prepend(if cfg.failFast then [] else [Fail(TooLong(mode.tooLong))],
        Run(cfg, mode, a + b), Run(cfg, mode, a), z', x', Run(cfg, x'.mode, x'.rest + b));
    }
  }

  lemma {:induction false} FragmentWithinDiscard(cfg: Config, mode: Mode, a: seq<byte>, b: seq<byte>, left: Mode)
    requires cfg.Valid() && !cfg.singleDecode && mode.Valid() && mode.discarding && |a| < mode.toDiscard
    requires left == mode.(toDiscard := mode.toDiscard - |a|)
    ensures var z, y := Run(cfg, mode, a + b), Run(cfg, left, b);
      z.events == y.events && z.mode == y.mode && z.rest == y.rest
  {
    var n := mode.toDiscard;
    if |a + b| < n {
      DiscardAll(cfg, mode, a + b);
      DiscardAll(cfg, left, b);
    } else {
      DiscardThenRun(cfg, mode, a + b);
      DiscardThenRun(cfg, left, b);
      assert (a + b)[n..] == b[n - |a|..];
    }
  }

  lemma {:induction false} FragmentPastDiscard(cfg: Config, mode: Mode, a: seq<byte>, b: seq<byte>, x': Outcome,
      z': Outcome)
    requires cfg.Valid() && !cfg.singleDecode && mode.Valid() && mode.discarding && mode.toDiscard <= |a|
    requires x' == Run(cfg, Idle, a[mode.toDiscard..]) && z' == Run(cfg, Idle, a[mode.toDiscard..] + b)
    ensures
      var x, z := Run(cfg, mode, a), Run(cfg, mode, a + b);
      var e := if cfg.failFast then [] else [Fail(TooLong(mode.tooLong))];
      && x.events == e + x'.events && x.mode == x'.mode && x.rest == x'.rest
      && z.events == e + z'.events && z.mode == z'.mode && z.rest == z'.rest
  {
    DropConcat(a, b, mode.toDiscard);
    DiscardThenRun(cfg, mode, a);
    DiscardThenRun(cfg, mode, a + b);
  }

  /** The same events in front of both sides keep the results the same. */
  lemma Prepend(e: seq<Event>, z: Outcome, x: Outcome, z': Outcome, x': Outcome, y: Outcome)
    requires SameResult(z', x', y)
    requires z.events == e + z'.events && z.mode == z'.mode && z.rest == z'.rest
    requires x.events == e + x'.events
    ensures SameResult(z, x, y)
  {
    assert e + (x'.events + y.events) == (e + x'.events) + y.events;
  }

  lemma {:induction false} FragmentIdle(cfg: Config, mode: Mode, a: seq<byte>, b: seq<byte>)
    requires cfg.Valid() && !cfg.singleDecode && mode == Idle && a != []
    ensures var x := Run(cfg, mode, a);
      SameResult(Run(cfg, mode, a + b), x, Run(cfg, x.mode, x.rest + b))
    decreases |a|, 0
  {
    var step := Decode(cfg, mode, a);
    if step.consumed > 0 {
      if step.mode == Idle {
        var rest := a[step.consumed..];
        var x', z' := Run(cfg, Idle, rest), Run(cfg, Idle, rest + b);
        FragmentStable(cfg, a, b, step, x', z');
        FragmentRun(cfg, Idle, rest, b);
        Prepend(Emitted(step.event), Run(cfg, Idle, a + b), Run(cfg, Idle, a), z', x', Run(cfg, x'.mode, x'.rest + b));
      } else {
        FragmentEnter(cfg, a, b, step);
      }
    }
  }

  lemma {:induction false} FragmentEnter(cfg: Config, a: seq<byte>, b: seq<byte>, step: Step)
    requires cfg.Valid() && !cfg.singleDecode && a != []
    requires step == Decode(cfg, Idle, a) && step.mode != Idle
    ensures var x := Run(cfg, Idle, a);
      SameResult(Run(cfg, Idle, a + b), x, Run(cfg, x.mode, x.rest + b))
  {
    EnteringStep(cfg, a, b, step);
    StepThenRun(cfg, Idle, a, step);
    assert a[step.consumed..] == [];
    var x := Run(cfg, Idle, a);
    assert x.events == Emitted(step.event) && x.mode == step.mode && x.rest == [];
    FragmentEnterThen(cfg, a, b, step, x);
  }

  lemma {:induction false} FragmentEnterThen(cfg: Config, a: seq<byte>, b: seq<byte>, step: Step, x: Outcome)
    requires cfg.Valid() && !cfg.singleDecode && a != []
    requires step == Decode(cfg, Idle, a) && step.mode != Idle
    requires x.events == Emitted(step.event) && x.mode == step.mode && x.rest == []
    ensures SameResult(Run(cfg, Idle, a + b), x, Run(cfg, x.mode, x.rest + b))
  {
    var length := step.mode.tooLong;
    assert x.rest + b == b;
    if length <= |a + b| {
      assert Decode(cfg, Idle, a + b) == Step(length, Fail(TooLong(length)), Idle) by {
        EnteringStep(cfg, a, b, step);
      }
      assert step.mode == Mode(true, length, length - |a|);
      FragmentEnterAll(cfg, a, b, step, length);
    } else {
      assert Decode(cfg, Idle, a + b) == Step(|a + b|, step.event, Mode(true, length, length - |a + b|)) by {
        EnteringStep(cfg, a, b, step);
      }
      assert step.mode == Mode(true, length, length - |a|);
      FragmentEnterPart(cfg, a, b, step, length);
    }
  }

  lemma {:induction false} FragmentStable(cfg: Config, a: seq<byte>, b: seq<byte>, step: Step, x': Outcome, z': Outcome)
    requires cfg.Valid() && !cfg.singleDecode && a != []
    requires step == Decode(cfg, Idle, a) && step.consumed > 0 && step.mode == Idle
    requires x' == Run(cfg, Idle, a[step.consumed..]) && z' == Run(cfg, Idle, a[step.consumed..] + b)
    ensures var x, z, e := Run(cfg, Idle, a), Run(cfg, Idle, a + b), Emitted(step.event);
      && x.events == e + x'.events && x.mode == x'.mode && x.rest == x'.rest
      && z.events == e + z'.events && z.mode == z'.mode && z.rest == z'.rest
  {
    StableStep(cfg, a, b, step);
    StepThenRun(cfg, Idle, a, step);
    StepThenRun(cfg, Idle, a + b, step);
    DropConcat(a, b, step.consumed);
  }

  /** A step that does not end in discard mode is the same whatever follows. */
  lemma {:induction false} StableStep(cfg: Config, a: seq<byte>, b: seq<byte>, step: Step)
    requires cfg.Valid() && step == Decode(cfg, Idle, a) && step.consumed > 0 && step.mode == Idle
    ensures Decode(cfg, Idle, a + b) == step
  {
    HeaderPrefix(cfg, a, b);
    var strip := cfg.initialBytesToStrip;
    assert step.event.Frame? ==> (a + b)[strip..step.consumed] == a[strip..step.consumed];
  }

  /** The step that meets an oversized frame, as more bytes become visible. */
  lemma {:induction false} EnteringStep(cfg: Config, a: seq<byte>, b: seq<byte>, step: Step)
    requires cfg.Valid() && step == Decode(cfg, Idle, a) && step.mode != Idle
    ensures var length := step.mode.tooLong;
      && step.mode == Mode(true, length, length - |a|) && step.consumed == |a| > 0
      && step.event == (if cfg.failFast then Fail(TooLong(length)) else Silent)
      && Decode(cfg, Idle, a + b) ==
           if length <= |a + b| then Step(length, Fail(TooLong(length)), Idle)
           else Step(|a + b|, step.event, Mode(true, length, length - |a + b|))
  {
    HeaderPrefix(cfg, a, b);
  }

  /** Up to the frame in `out`, a run is its first step followed by the run of the rest. */
  lemma {:induction false} StepThenRun(cfg: Config, mode: Mode, s: seq<byte>, step: Step)
    requires cfg.Valid() && !cfg.singleDecode && mode.Valid() && s != []
    requires step == Decode(cfg, mode, s) && step.consumed > 0
    ensures
      var o, after := Run(cfg, mode, s), Run(cfg, step.mode, s[step.consumed..]);
      o.events == Emitted(step.event) + after.events && o.mode == after.mode && o.rest == after.rest
  {
  }

  /** The oversized frame is complete within a + b. */
  lemma {:induction false} FragmentEnterAll(cfg: Config, a: seq<byte>, b: seq<byte>, step: Step, length: nat)
    requires cfg.Valid() && !cfg.singleDecode && step.mode.Valid() && a != []
    requires step.mode == Mode(true, length, length - |a|) && length <= |a + b|
    requires step.event == if cfg.failFast then Fail(TooLong(length)) else Silent
    requires Decode(cfg, Idle, a + b) == Step(length, Fail(TooLong(length)), Idle)
    ensures var z, y := Run(cfg, Idle, a + b), Run(cfg, step.mode, b);
      z.events == Emitted(step.event) + y.events && z.mode == y.mode && z.rest == y.rest
  {
    StepThenRun(cfg, Idle, a + b, Step(length, Fail(TooLong(length)), Idle));
    DropPast(a, b, length);
    FragmentSkipped(cfg, b, step, Run(cfg, Idle, a + b), Run(cfg, Idle, b[length - |a|..]));
  }

  /** The oversized frame extends beyond a + b. */
  lemma {:induction false} FragmentEnterPart(cfg: Config, a: seq<byte>, b: seq<byte>, step: Step, length: nat)
    requires cfg.Valid() && !cfg.singleDecode && step.mode.Valid() && a != []
    requires step.mode == Mode(true, length, length - |a|) && length > |a + b|
    requires Decode(cfg, Idle, a + b) == Step(|a + b|, step.event, Mode(true, length, length - |a + b|))
    ensures var z, y := Run(cfg, Idle, a + b), Run(cfg, step.mode, b);
      z.events == Emitted(step.event) + y.events && z.mode == y.mode && z.rest == y.rest
  {
    var whole := Step(|a + b|, step.event, Mode(true, length, length - |a + b|));
    StepThenRun(cfg, Idle, a + b, whole);
    assert (a + b)[|a + b|..] == [];
    DiscardAll(cfg, step.mode, b);
  }

  lemma {:induction false} FragmentSkipped(cfg: Config, b: seq<byte>, step: Step, z: Outcome, after: Outcome)
    requires cfg.Valid() && !cfg.singleDecode && step.mode.Valid() && step.mode.discarding && step.mode.toDiscard <= |b|
    requires step.event == (if cfg.failFast then Fail(TooLong(step.mode.tooLong)) else Silent)
    requires after == Run(cfg, Idle, b[step.mode.toDiscard..])
    requires z.events == [Fail(TooLong(step.mode.tooLong))] + after.events
    requires z.mode == after.mode && z.rest == after.rest
    ensures var y := Run(cfg, step.mode, b);
      z.events == Emitted(step.event) + y.events && z.mode == y.mode && z.rest == y.rest
  {
    DiscardThenRun(cfg, step.mode, b);
    var y := Run(cfg, step.mode, b);
    if cfg.failFast {
      assert y.events == after.events;
    } else {
      assert [] + y.events == y.events;
    }
  }

  // ----- A connection: one channelRead per chunk -----

  /** What channelRead passes on: a frame left in `out` is lost when a decode call of the loop threw. */
  function Delivered(o: Outcome): seq<seq<byte>> {
    if Failed(o.events) then o.fired else o.fired + o.held
  }

  function Lost(o: Outcome): seq<seq<byte>> {
    if Failed(o.events) then o.held else []
  }

  /** The frames of a call are those it passes on and those it loses; FrameGrammar.LostFrameIff tells from the bytes
      when it loses one. */
  lemma DeliversAllIff(cfg: Config, mode: Mode, s: seq<byte>)
    requires cfg.Valid() && mode.Valid()
    ensures var o := Run(cfg, mode, s);
      && Frames(o.events) == Delivered(o) + Lost(o)
      && (Delivered(o) == Frames(o.events) <==> !(Failed(o.events) && o.held != []))
  {
    var o := Run(cfg, mode, s);
    RunAccountsForFrames(cfg, mode, s);
    assert Delivered(o) == Frames(o.events) ==> |Lost(o)| == 0;
  }

  datatype Session = Session(delivered: seq<seq<byte>>, lost: seq<seq<byte>>, events: seq<Event>, mode: Mode,
    pending: seq<byte>)

  /** One channelRead per chunk: the cumulation holds the bytes the previous calls left. */
  function Feed(cfg: Config, mode: Mode, pending: seq<byte>, chunks: seq<seq<byte>>): (f: Session)
    requires cfg.Valid() && mode.Valid()
    ensures f.mode.Valid()
    decreases |chunks|
  {
    if chunks == [] then
      Session([], [], [], mode, pending)
    else
      var o := Run(cfg, mode, pending + chunks[0]);
      var f := Feed(cfg, o.mode, o.rest, chunks[1..]);
      f.(delivered := Delivered(o) + f.delivered, lost := Lost(o) + f.lost, events := o.events + f.events)
  }

  function Concat(chunks: seq<seq<byte>>): seq<byte> {
    if chunks == [] then [] else chunks[0] + Concat(chunks[1..])
  }

  /** Every one of the calls starts with a count that survives the cast to int. */
  predicate CountsFit(cfg: Config, mode: Mode, pending: seq<byte>, chunks: seq<seq<byte>>)
    requires cfg.Valid() && mode.Valid()
    decreases |chunks|
  {
    && mode.toDiscard <= INT_MAX
    && (chunks != [] ==>
      var o := Run(cfg, mode, pending + chunks[0]);
      CountsFit(cfg, o.mode, o.rest, chunks[1..]))
  }

  lemma {:induction false} HeadersFitCounts(cfg: Config, mode: Mode, pending: seq<byte>, chunks: seq<seq<byte>>)
    requires cfg.Valid() && mode.Valid() && HeadersFit(cfg, mode, pending + Concat(chunks))
    ensures CountsFit(cfg, mode, pending, chunks)
    decreases |chunks|
  {
    if chunks != [] {
      Associative(pending, chunks[0], Concat(chunks[1..]));
      FitsAfter(cfg, mode, pending + chunks[0], Concat(chunks[1..]));
      var o := Run(cfg, mode, pending + chunks[0]);
      HeadersFitCounts(cfg, o.mode, o.rest, chunks[1..]);
    }
  }

  /** However a stream is cut into chunks, the calls together produce the events, the mode and the unread
      bytes of one decoder that sees the whole stream at once, and none meets a count that the cast changes. */
  lemma {:induction false} ChunkingInvariance(cfg: Config, mode: Mode, s: seq<byte>, chunks: seq<seq<byte>>)
    requires cfg.Valid() && !cfg.singleDecode && mode.Valid() && HeadersFit(cfg, mode, s + Concat(chunks))
    ensures var x := Run(cfg, mode, s);
      var f, z := Feed(cfg, x.mode, x.rest, chunks), Run(cfg, mode, s + Concat(chunks));
      && x.events + f.events == z.events && f.mode == z.mode && f.pending == z.rest
      && CountsFit(cfg, x.mode, x.rest, chunks) && f.mode.toDiscard <= INT_MAX
    decreases |chunks|
  {
    var x := Run(cfg, mode, s);
    FitsAfter(cfg, mode, s, Concat(chunks));
    HeadersFitCounts(cfg, x.mode, x.rest, chunks);
    if chunks == [] {
      assert s + [] == s;
    } else {
      var o := Run(cfg, x.mode, x.rest + chunks[0]);
      FragmentRun(cfg, mode, s, chunks[0]);
      Associative(s, chunks[0], Concat(chunks[1..]));
      ChunkingInvariance(cfg, mode, s + chunks[0], chunks[1..]);
      Associative(x.events, o.events, Feed(cfg, o.mode, o.rest, chunks[1..]).events);
    }
  }

  lemma {:induction false} FailedConcat(a: seq<Event>, b: seq<Event>)
    ensures Failed(a + b) <==> Failed(a) || Failed(b)
  {
    if Failed(a) {
      var i :| 0 <= i < |a| && a[i].Fail?;
      assert (a + b)[i].Fail?;
    }
    if Failed(b) {
      var i :| 0 <= i < |b| && b[i].Fail?;
      assert (a + b)[|a| + i].Fail?;
    }
  }

  /** Without exceptions the chunks deliver exactly the decoded frames, in order; with exceptions every
      decoded frame is delivered or lost, and a run loses none exactly when it delivers all. */
  lemma {:induction false} DeliveryAccount(cfg: Config, mode: Mode, pending: seq<byte>, chunks: seq<seq<byte>>)
    requires cfg.Valid() && mode.Valid()
    ensures var f := Feed(cfg, mode, pending, chunks);
      && (!Failed(f.events) ==> f.lost == [])
      && (f.lost == [] <==> f.delivered == Frames(f.events))
      && multiset(f.delivered) + multiset(f.lost) == multiset(Frames(f.events))
    decreases |chunks|
  {
    if chunks != [] {
      var o := Run(cfg, mode, pending + chunks[0]);
      var f := Feed(cfg, o.mode, o.rest, chunks[1..]);
      DeliversAllIff(cfg, mode, pending + chunks[0]);
      DeliveryAccount(cfg, o.mode, o.rest, chunks[1..]);
      FramesConcat(o.events, f.events);
      FailedConcat(o.events, f.events);
      AccountJoin(Delivered(o), Lost(o), f.delivered, f.lost, Frames(f.events));
    }
  }

  /** Two accounts in a row: the delivered and the lost frames add up, and nothing lost means all in order. */
  lemma AccountJoin(d: seq<seq<byte>>, l: seq<seq<byte>>, d': seq<seq<byte>>, l': seq<seq<byte>>, all': seq<seq<byte>>)
    requires multiset(d') + multiset(l') == multiset(all') && (l' == [] <==> d' == all')
    ensures var all := (d + l) + all';
      && multiset(d + d') + multiset(l + l') == multiset(all)
      && (l + l' == [] <==> d + d' == all)
  {
    var all := (d + l) + all';
    assert d + [] == d && [] + [] == l + l' ==> l == [] && l' == [];
    if l + l' == [] {
      assert l == [] && l' == [];
    } else {
      assert |multiset(d')| + |multiset(l')| == |multiset(all')|;
      assert |d'| + |l'| == |all'| && |l| + |l'| > 0;
      assert |d + d'| < |all|;
    }
  }

  /** The end-to-end statement for a new connection. */
  lemma {:induction false} DeliveryTheorem(cfg: Config, chunks: seq<seq<byte>>)
    requires cfg.Valid() && !cfg.singleDecode && HeadersFit(cfg, Idle, Concat(chunks))
    ensures CountsFit(cfg, Idle, [], chunks)
    ensures var f, z := Feed(cfg, Idle, [], chunks), Run(cfg, Idle, Concat(chunks));
      && f.events == z.events && f.mode == z.mode && f.pending == z.rest
      && (!Failed(z.events) ==> f.delivered == Frames(z.events) && f.lost == [])
  {
    assert [] + Concat(chunks) == Concat(chunks);
    HeadersFitCounts(cfg, Idle, [], chunks);
    var f := Feed(cfg, Idle, [], chunks);
    assert f.events == Run(cfg, Idle, Concat(chunks)).events by {
      ChunkingInvariance(cfg, Idle, [], chunks);
      assert Run(cfg, Idle, []).events + f.events == f.events;
    }
    ChunkingInvariance(cfg, Idle, [], chunks);
    DeliveryAccount(cfg, Idle, [], chunks);
  }

  /** With setSingleDecode a call passes on at most one frame. */
  lemma SingleDecodeAtMostOne(cfg: Config, mode: Mode, s: seq<byte>)
    requires cfg.Valid() && cfg.singleDecode && mode.Valid()
    ensures |Delivered(Run(cfg, mode, s))| <= 1
    decreases |s|
  {
    RunAccountsForFrames(cfg, mode, s);
    SingleFiresNone(cfg, mode, s);
  }

  lemma {:induction false} SingleFiresNone(cfg: Config, mode: Mode, s: seq<byte>)
    requires cfg.Valid() && cfg.singleDecode && mode.Valid()
    ensures Run(cfg, mode, s).fired == []
    decreases |s|
  {
    if s != [] {
      var step := Decode(cfg, mode, s);
      if step.consumed > 0 {
        SingleFiresNone(cfg, step.mode, s[step.consumed..]);
      }
    }
  }
}
