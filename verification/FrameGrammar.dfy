/** What the frame decoder makes of a whole stream: every stream is a list of units and an unfinished tail, and a
    run yields one event for each unit. From this follow resynchronisation, round trips and the reach of the
    discard counter. */
module FrameGrammar {
  import opened Words
  import opened FrameStream
  import Codec = HeapCharBufUtil

  /** A stretch of input that one header accounts for, and the event it stands for. */
  datatype Unit = Unit(bytes: seq<byte>, event: Event)

  predicate IsUnit(cfg: Config, u: Unit)
    requires cfg.Valid()
  {
    |u.bytes| >= cfg.EndOffset() &&
    var value, length := FieldValue(cfg, u.bytes), FrameLength(cfg, u.bytes);
    if value < 0 || length < cfg.EndOffset() then
      |u.bytes| == cfg.EndOffset() && u.event == Fail(if value < 0 then Negative(value) else BelowHeader(length))
    else if length > cfg.maxFrameLength then
      |u.bytes| == length && u.event == Fail(TooLong(length))
    else if cfg.initialBytesToStrip > length then
      |u.bytes| == length && u.event == Fail(BelowStrip(length))
    else
      |u.bytes| == length && u.event == Frame(u.bytes[cfg.initialBytesToStrip..])
  }

  /** Too few bytes for a unit. */
  predicate IsTail(cfg: Config, t: seq<byte>)
    requires cfg.Valid()
  {
    |t| < cfg.EndOffset() ||
    (FieldValue(cfg, t) >= 0 && cfg.EndOffset() <= FrameLength(cfg, t) && |t| < FrameLength(cfg, t))
  }

  predicate Oversized(cfg: Config, t: seq<byte>)
    requires cfg.Valid()
  {
    |t| >= cfg.EndOffset() && FrameLength(cfg, t) > cfg.maxFrameLength
  }

  function Bytes(units: seq<Unit>): seq<byte> {
    if units == [] then [] else units[0].bytes + Bytes(units[1..])
  }

  function Events(units: seq<Unit>): seq<Event> {
    if units == [] then [] else [units[0].event] + Events(units[1..])
  }

  predicate AllUnits(cfg: Config, units: seq<Unit>)
    requires cfg.Valid()
  {
    forall i :: 0 <= i < |units| ==> IsUnit(cfg, units[i])
  }

  /** Every byte string is a sequence of units followed by a tail, so each byte belongs to a frame, to bytes
      stripped from one, to a discarded frame, to a rejected header, or is still unread. */
  lemma {:induction false} Decompose(cfg: Config, s: seq<byte>) returns (units: seq<Unit>, tail: seq<byte>)
    requires cfg.Valid()
    ensures AllUnits(cfg, units) && IsTail(cfg, tail) && s == Bytes(units) + tail
    decreases |s|
  {
    if IsTail(cfg, s) {
      units, tail := [], s;
    } else {
      var u := FirstUnit(cfg, s);
      var rest, t := Decompose(cfg, s[|u.bytes|..]);
      units, tail := [u] + rest, t;
      assert units[1..] == rest;
      Associative(u.bytes, Bytes(rest), t);
    }
  }

  lemma {:induction false} FirstUnit(cfg: Config, s: seq<byte>) returns (u: Unit)
    requires cfg.Valid() && !IsTail(cfg, s)
    ensures IsUnit(cfg, u) && 0 < |u.bytes| <= |s| && s == u.bytes + s[|u.bytes|..]
  {
    var value, length := FieldValue(cfg, s), FrameLength(cfg, s);
    var n := if value < 0 || length < cfg.EndOffset() then cfg.EndOffset() else length;
    var bytes := s[..n];
    assert s == bytes + s[n..];
    HeaderPrefix(cfg, bytes, s[n..]);
    u := Unit(bytes,
      if value < 0 then Fail(Negative(value))
      else if length < cfg.EndOffset() then Fail(BelowHeader(length))
      else if length > cfg.maxFrameLength then Fail(TooLong(length))
      else if cfg.initialBytesToStrip > length then Fail(BelowStrip(length))
      else Frame(bytes[cfg.initialBytesToStrip..]));
  }

  /** The decoder reads a unit as its event and continues at the very next byte. */
  lemma {:induction false} UnitStep(cfg: Config, u: Unit, s: seq<byte>)
    requires cfg.Valid() && IsUnit(cfg, u)
    ensures Decode(cfg, Idle, u.bytes + s) == Step(|u.bytes|, u.event, Idle)
  {
    HeaderPrefix(cfg, u.bytes, s);
    var strip := cfg.initialBytesToStrip;
    assert strip <= |u.bytes| ==> (u.bytes + s)[strip..|u.bytes|] == u.bytes[strip..];
  }

  lemma {:induction false} TailRun(cfg: Config, tail: seq<byte>)
    requires cfg.Valid() && IsTail(cfg, tail)
    ensures
      var o := Run(cfg, Idle, tail);
      if Oversized(cfg, tail) then
        var length := FrameLength(cfg, tail);
        && o.events == (if cfg.failFast then [Fail(TooLong(length))] else [])
        && o.mode == Mode(true, length, length - |tail|) && o.rest == []
      else o.events == [] && o.mode == Idle && o.rest == tail
  {
    if Oversized(cfg, tail) {
      assert tail[|tail|..] == [];
    }
  }

  lemma {:induction false} RunUnit(cfg: Config, u: Unit, s: seq<byte>)
    requires cfg.Valid() && !cfg.singleDecode && IsUnit(cfg, u)
    ensures var o, after := Run(cfg, Idle, u.bytes + s), Run(cfg, Idle, s);
      o.events == [u.event] + after.events && o.mode == after.mode && o.rest == after.rest
  {
    UnitStep(cfg, u, s);
    StepThenRun(cfg, Idle, u.bytes + s, Step(|u.bytes|, u.event, Idle));
    DropConcat(u.bytes, s, |u.bytes|);
    assert [] + s == s;
  }

  /** What a stream of units decodes to: their events in order, and the tail unread, or, when the tail
      belongs to an oversized frame, skipped with the exact number of its missing bytes outstanding. */
  lemma {:induction false} RunUnits(cfg: Config, units: seq<Unit>, tail: seq<byte>)
    requires cfg.Valid() && !cfg.singleDecode && AllUnits(cfg, units) && IsTail(cfg, tail)
    ensures
      var o, t := Run(cfg, Idle, Bytes(units) + tail), Run(cfg, Idle, tail);
      o.events == Events(units) + t.events && o.mode == t.mode && o.rest == t.rest
    decreases |units|
  {
    if units == [] {
      assert [] + tail == tail;
    } else {
      var u, s := units[0], Bytes(units[1..]) + tail;
      RunUnits(cfg, units[1..], tail);
      RunUnit(cfg, u, s);
      Associative(u.bytes, Bytes(units[1..]), tail);
      Associative([u.event], Events(units[1..]), Run(cfg, Idle, tail).events);
    }
  }

  /** Resynchronisation: from the first byte of an oversized frame, under any chunking, exactly its bytes are
      skipped, one exception reports it, and what follows is decoded as on a new connection. */
  lemma {:induction false} Resynchronises(cfg: Config, u: Unit, s: seq<byte>, chunks: seq<seq<byte>>)
    requires cfg.Valid() && !cfg.singleDecode && IsUnit(cfg, u) && Concat(chunks) == u.bytes + s
    requires |u.bytes| > cfg.maxFrameLength && |u.bytes| - cfg.EndOffset() <= INT_MAX && StreamFits(cfg, s)
    ensures CountsFit(cfg, Idle, [], chunks)
    ensures var f, z := Feed(cfg, Idle, [], chunks), Run(cfg, Idle, s);
      && u.event == Fail(TooLong(|u.bytes|))
      && f.events == [u.event] + z.events && f.mode == z.mode && f.pending == z.rest
  {
    FitsUnit(cfg, u, s);
    DeliveryTheorem(cfg, chunks);
    RunUnit(cfg, u, s);
  }

  /** A unit that announces no more than an int holds in front of a stream that fits. */
  lemma {:induction false} FitsUnit(cfg: Config, u: Unit, s: seq<byte>)
    requires cfg.Valid() && IsUnit(cfg, u) && |u.bytes| - cfg.EndOffset() <= INT_MAX && StreamFits(cfg, s)
    ensures StreamFits(cfg, u.bytes + s)
  {
    HeaderPrefix(cfg, u.bytes, s);
    DropConcat(u.bytes, s, |u.bytes|);
    assert [] + s == s;
  }

  // ----- Lost frames -----

  predicate SomeFails(units: seq<Unit>) {
    exists i :: 0 <= i < |units| && units[i].event.Fail?
  }

  /** A loop leaves a frame in `out` exactly when the bytes end with that frame. */
  lemma {:induction false} HeldIff(cfg: Config, units: seq<Unit>, tail: seq<byte>)
    requires cfg.Valid() && !cfg.singleDecode && AllUnits(cfg, units) && IsTail(cfg, tail)
    ensures
      Run(cfg, Idle, Bytes(units) + tail).held ==
        if tail == [] && units != [] && units[|units| - 1].event.Frame? then [units[|units| - 1].event.bytes] else []
    decreases |units|
  {
    if units == [] {
      assert [] + tail == tail;
      TailHoldsNone(cfg, tail);
    } else {
      var u, rest := units[0], units[1..];
      Associative(u.bytes, Bytes(rest), tail);
      HeldIff(cfg, rest, tail);
      HeldStep(cfg, u, Bytes(rest) + tail);
      if rest != [] {
        assert rest[|rest| - 1] == units[|units| - 1];
        BytesNotEmpty(cfg, rest);
      }
    }
  }

  lemma HeldStep(cfg: Config, u: Unit, s: seq<byte>)
    requires cfg.Valid() && !cfg.singleDecode && IsUnit(cfg, u)
    ensures Run(cfg, Idle, u.bytes + s).held ==
      if s == [] then if u.event.Frame? then [u.event.bytes] else [] else Run(cfg, Idle, s).held
  {
    UnitStep(cfg, u, s);
    DropConcat(u.bytes, s, |u.bytes|);
    assert [] + s == s;
  }

  lemma TailHoldsNone(cfg: Config, tail: seq<byte>)
    requires cfg.Valid() && IsTail(cfg, tail)
    ensures Run(cfg, Idle, tail).held == []
  {
    if Oversized(cfg, tail) {
      assert tail[|tail|..] == [];
    }
  }

  lemma BytesNotEmpty(cfg: Config, units: seq<Unit>)
    requires cfg.Valid() && AllUnits(cfg, units) && units != []
    ensures Bytes(units) != []
  {
    assert |units[0].bytes| >= cfg.EndOffset();
  }

  lemma {:induction false} FailedUnits(units: seq<Unit>)
    ensures Failed(Events(units)) <==> SomeFails(units)
  {
    if units != [] {
      var rest := units[1..];
      FailedUnits(rest);
      FailedConcat([units[0].event], Events(rest));
      if SomeFails(rest) {
        var i :| 0 <= i < |rest| && rest[i].event.Fail?;
        assert units[i + 1].event.Fail?;
      }
      if SomeFails(units) && !units[0].event.Fail? {
        var i :| 0 <= i < |units| && units[i].event.Fail?;
        assert rest[i - 1].event.Fail?;
      }
      assert Failed([units[0].event]) <==> units[0].event.Fail? by {
        assert [units[0].event][0] == units[0].event;
      }
    }
  }

  /** The bytes that complete a discard in progress, none when there is none, then units and a tail: the call loses
      a frame if and only if the bytes end with it and something before it was rejected. */
  lemma {:induction false} LostFrameIff(cfg: Config, mode: Mode, skipped: seq<byte>, units: seq<Unit>, tail: seq<byte>)
    requires cfg.Valid() && !cfg.singleDecode && mode.Valid() && mode.toDiscard <= INT_MAX
    requires |skipped| == mode.toDiscard && AllUnits(cfg, units) && IsTail(cfg, tail)
    ensures
      Lost(Run(cfg, mode, skipped + (Bytes(units) + tail))) != [] <==>
        && tail == [] && units != [] && units[|units| - 1].event.Frame?
        && (SomeFails(units) || (mode.discarding && !cfg.failFast))
  {
    var s := Bytes(units) + tail;
    HeldIff(cfg, units, tail);
    RunUnits(cfg, units, tail);
    FailedUnits(units);
    FailedConcat(Events(units), Run(cfg, Idle, tail).events);
    if mode.discarding {
      DiscardSkips(cfg, mode, skipped + s);
      DropConcat(skipped, s, |skipped|);
      assert [] + s == s;
      FailedConcat(if cfg.failFast then [] else [Fail(TooLong(mode.tooLong))], Run(cfg, Idle, s).events);
      assert [Event.Fail(TooLong(mode.tooLong))][0].Fail?;
    } else {
      assert skipped + s == s;
    }
  }

  lemma RejectedThenWhole(cfg: Config, u: Unit, v: Unit)
    requires cfg.Valid() && !cfg.singleDecode && IsUnit(cfg, u) && IsUnit(cfg, v) && u.event.Fail? && v.event.Frame?
    ensures Lost(Run(cfg, Idle, u.bytes + v.bytes)) != []
  {
    var units := [u, v];
    assert units[1..] == [v] && units[1..][1..] == [];
    assert Bytes(units) == u.bytes + Bytes([v]) && Bytes([v]) == v.bytes + [];
    assert [] + (Bytes(units) + []) == u.bytes + v.bytes;
    assert units[0].event.Fail?;
    LostFrameIff(cfg, Idle, [], units, []);
  }

  /** A rejected header and then a whole frame in one read: the frame is lost. */
  lemma FrameLost(cfg: Config, rejected: seq<byte>, whole: seq<byte>)
    requires cfg == Config(8192, 0, 4, -5, 0, true, false) && rejected == [0, 0, 0, 0] && whole == [0, 0, 0, 5]
    ensures Lost(Run(cfg, Idle, rejected + whole)) != []
  {
    RejectedAndWhole(cfg, rejected, whole);
    RejectedThenWhole(cfg, Unit(rejected, Fail(BelowHeader(-1))), Unit(whole, Frame(whole[0..])));
  }

  lemma RejectedAndWhole(cfg: Config, rejected: seq<byte>, whole: seq<byte>)
    requires cfg == Config(8192, 0, 4, -5, 0, true, false) && rejected == [0, 0, 0, 0] && whole == [0, 0, 0, 5]
    ensures IsUnit(cfg, Unit(rejected, Fail(BelowHeader(-1)))) && IsUnit(cfg, Unit(whole, Frame(whole[0..])))
  {
    assert Codec.GetUInt(rejected, 0) == 0 && Codec.GetUInt(whole, 0) == 5;
  }

  // ----- Round trips -----

  /** What a sender puts in front of the length field and behind it. */
  datatype Message = Message(front: seq<byte>, payload: seq<byte>)

  /** A message on the wire; the field holds the length of the payload less the adjustment. */
  function Written(cfg: Config, m: Message): (w: seq<byte>)
    requires cfg.Valid()
    ensures |w| == |m.front| + cfg.lengthFieldLength + |m.payload|
  {
    m.front + Codec.ToBytes(|m.payload| - cfg.lengthAdjustment, cfg.lengthFieldLength) + m.payload
  }

  function AllWritten(cfg: Config, messages: seq<Message>): seq<byte>
    requires cfg.Valid()
  {
    if messages == [] then [] else Written(cfg, messages[0]) + AllWritten(cfg, messages[1..])
  }

  /** The lengths that the decoder reads back as they were written: the one-byte field is a signed char. */
  function LengthLimit(width: nat): int {
    match width case 1 => 0x7F case 2 => 0xFFFF case 4 => 0xFFFF_FFFF case _ => 0x7FFF_FFFF_FFFF_FFFF
  }

  /** The message has the configured shape, and is within the frame limit but for what the field can hold. */
  predicate Shaped(cfg: Config, m: Message)
    requires cfg.Valid()
  {
    && |m.front| == cfg.lengthFieldOffset && |m.payload| >= cfg.lengthAdjustment
    && cfg.initialBytesToStrip <= cfg.EndOffset() + |m.payload| <= cfg.maxFrameLength
  }

  predicate Fits(cfg: Config, m: Message)
    requires cfg.Valid()
  {
    Shaped(cfg, m) && |m.payload| - cfg.lengthAdjustment <= LengthLimit(cfg.lengthFieldLength)
  }

  predicate AllFit(cfg: Config, messages: seq<Message>)
    requires cfg.Valid()
  {
    forall i :: 0 <= i < |messages| ==> Fits(cfg, messages[i])
  }

  lemma {:induction false} FieldOfMessage(cfg: Config, m: Message)
    requires cfg.Valid() && |m.front| == cfg.lengthFieldOffset
    requires 0 <= |m.payload| - cfg.lengthAdjustment <= LengthLimit(cfg.lengthFieldLength)
    ensures FieldValue(cfg, Written(cfg, m)) == |m.payload| - cfg.lengthAdjustment
  {
    FieldWritten(cfg, m);
    WithinLimit(|m.payload| - cfg.lengthAdjustment, cfg.lengthFieldLength);
  }

  lemma {:induction false} WithinLimit(length: nat, width: nat)
    requires width in {1, 2, 4, 8} && length <= LengthLimit(width)
    ensures Announced(Codec.ToBytes(length, width)) == length
  {
    Codec.Powers();
    Codec.ReadBack(length, width);
  }

  lemma {:induction false} FieldWritten(cfg: Config, m: Message)
    requires cfg.Valid() && |m.front| == cfg.lengthFieldOffset
    ensures FieldValue(cfg, Written(cfg, m)) ==
      Announced(Codec.ToBytes(|m.payload| - cfg.lengthAdjustment, cfg.lengthFieldLength))
  {
    FieldAtIsBytes(cfg, Written(cfg, m), cfg.lengthFieldOffset);
    MiddlePart(m.front, Codec.ToBytes(|m.payload| - cfg.lengthAdjustment, cfg.lengthFieldLength), m.payload);
  }

  lemma MiddlePart(a: seq<byte>, b: seq<byte>, c: seq<byte>)
    ensures (a + b + c)[|a|..|a| + |b|] == b
  {
  }

  /** A message within the frame limit is one unit: the frame is the message without the stripped bytes. */
  lemma {:induction false} MessageIsUnit(cfg: Config, m: Message)
    requires cfg.Valid() && Fits(cfg, m)
    ensures var w := Written(cfg, m);
      IsUnit(cfg, Unit(w, Frame(w[cfg.initialBytesToStrip..]))) && |w| <= cfg.maxFrameLength
  {
    FieldOfMessage(cfg, m);
  }

  /** One decode call on any message that its field can describe: the length alone decides. */
  lemma {:induction false} MessageOutcome(cfg: Config, m: Message)
    requires cfg.Valid() && |m.front| == cfg.lengthFieldOffset
    requires 0 <= |m.payload| - cfg.lengthAdjustment <= LengthLimit(cfg.lengthFieldLength)
    requires |Written(cfg, m)| <= 0x7FFF_FFFF_FFFF_FFFF
    ensures var w := Written(cfg, m);
      Decode(cfg, Idle, w) == Step(|w|,
        if |w| > cfg.maxFrameLength then Fail(TooLong(|w|))
        else if cfg.initialBytesToStrip > |w| then Fail(BelowStrip(|w|))
        else Frame(w[cfg.initialBytesToStrip..]), Idle)
  {
    FieldOfMessage(cfg, m);
    var w := Written(cfg, m);
    assert w[cfg.lengthFieldOffset..] != [];
    assert cfg.initialBytesToStrip <= |w| ==> w[cfg.initialBytesToStrip..|w|] == w[cfg.initialBytesToStrip..];
  }

  /** The same with only the first n bytes: a message within the limit waits, and one that exceeds it is discarded as
      soon as its header is there, with its missing bytes outstanding. */
  lemma {:induction false} MessagePart(cfg: Config, m: Message, n: nat)
    requires cfg.Valid() && |m.front| == cfg.lengthFieldOffset
    requires 0 <= |m.payload| - cfg.lengthAdjustment <= LengthLimit(cfg.lengthFieldLength)
    requires n < |Written(cfg, m)| <= 0x7FFF_FFFF_FFFF_FFFF
    ensures var w := Written(cfg, m);
      Decode(cfg, Idle, w[..n]) ==
        if n < cfg.lengthFieldOffset + cfg.lengthFieldLength || |w| <= cfg.maxFrameLength then Step(0, Silent, Idle)
        else Step(n, if cfg.failFast then Fail(TooLong(|w|)) else Silent, Mode(true, |w|, |w| - n))
  {
    FieldOfMessage(cfg, m);
    var w := Written(cfg, m);
    assert w[..n] + w[n..] == w;
    FramePart(cfg, w, w[..n], w[n..]);
  }

  lemma {:induction false} FramePart(cfg: Config, w: seq<byte>, part: seq<byte>, rest: seq<byte>)
    requires cfg.Valid() && w == part + rest && rest != [] && |w| >= cfg.EndOffset()
    requires FieldValue(cfg, w) >= 0 && FrameLength(cfg, w) == |w|
    ensures Decode(cfg, Idle, part) ==
      if |part| < cfg.EndOffset() || |w| <= cfg.maxFrameLength then Step(0, Silent, Idle)
      else Step(|part|, if cfg.failFast then Fail(TooLong(|w|)) else Silent, Mode(true, |w|, |rest|))
  {
    if |part| >= cfg.EndOffset() {
      HeaderPrefix(cfg, part, rest);
    }
  }

  function Stripped(cfg: Config, messages: seq<Message>): (f: seq<seq<byte>>)
    requires cfg.Valid() && AllFit(cfg, messages)
    ensures |f| == |messages|
  {
    if messages == [] then []
    else [Written(cfg, messages[0])[cfg.initialBytesToStrip..]] + Stripped(cfg, messages[1..])
  }

  /** Round trip: any list of messages that fit the frame limit, with any bytes in front of the length field, cut into
      chunks anywhere, comes out as the same list; stripping up to the end of the field leaves the payloads. */
  lemma {:induction false} RoundTrip(cfg: Config, messages: seq<Message>, chunks: seq<seq<byte>>)
    requires cfg.Valid() && !cfg.singleDecode && AllFit(cfg, messages)
    requires Concat(chunks) == AllWritten(cfg, messages)
    ensures CountsFit(cfg, Idle, [], chunks)
    ensures var f := Feed(cfg, Idle, [], chunks);
      && |f.delivered| == |messages| && f.lost == [] && f.mode == Idle && f.pending == []
      && forall i :: 0 <= i < |messages| ==>
        && f.delivered[i] == Written(cfg, messages[i])[cfg.initialBytesToStrip..]
        && (cfg.initialBytesToStrip == cfg.EndOffset() ==> f.delivered[i] == messages[i].payload)
  {
    var units := MessageUnits(cfg, messages);
    assert Bytes(units) + [] == Concat(chunks);
    RunUnits(cfg, units, []);
    TailRun(cfg, []);
    FitsUnits(cfg, units);
    DeliveryTheorem(cfg, chunks);
    assert Events(units) + [] == Events(units);
    forall i | 0 <= i < |messages|
      ensures Stripped(cfg, messages)[i] == Written(cfg, messages[i])[cfg.initialBytesToStrip..]
      ensures cfg.initialBytesToStrip == cfg.EndOffset() ==> Stripped(cfg, messages)[i] == messages[i].payload
    {
      StrippedAt(cfg, messages, i);
    }
  }

  lemma {:induction false} FitsUnits(cfg: Config, units: seq<Unit>)
    requires cfg.Valid() && AllUnits(cfg, units)
    requires forall i :: 0 <= i < |units| ==> |units[i].bytes| <= cfg.maxFrameLength
    ensures StreamFits(cfg, Bytes(units))
  {
    if units != [] {
      FitsUnits(cfg, units[1..]);
      FitsUnit(cfg, units[0], Bytes(units[1..]));
    }
  }

  lemma {:induction false} MessageUnits(cfg: Config, messages: seq<Message>) returns (units: seq<Unit>)
    requires cfg.Valid() && AllFit(cfg, messages)
    ensures AllUnits(cfg, units) && Bytes(units) == AllWritten(cfg, messages)
    ensures Frames(Events(units)) == Stripped(cfg, messages) && !Failed(Events(units))
    ensures forall i :: 0 <= i < |units| ==> |units[i].bytes| <= cfg.maxFrameLength
    decreases |messages|
  {
    if messages == [] {
      units := [];
    } else {
      MessageIsUnit(cfg, messages[0]);
      var w := Written(cfg, messages[0]);
      var u := Unit(w, Frame(w[cfg.initialBytesToStrip..]));
      var rest := MessageUnits(cfg, messages[1..]);
      units := [u] + rest;
      assert units[1..] == rest;
      assert Events(units)[1..] == Events(rest);
      FailedConcat([u.event], Events(rest));
    }
  }

  lemma {:induction false} StrippedAt(cfg: Config, messages: seq<Message>, i: nat)
    requires cfg.Valid() && AllFit(cfg, messages) && i < |messages|
    ensures Stripped(cfg, messages)[i] == Written(cfg, messages[i])[cfg.initialBytesToStrip..]
    ensures cfg.initialBytesToStrip == cfg.EndOffset() ==> Stripped(cfg, messages)[i] == messages[i].payload
    decreases i
  {
    if i > 0 {
      StrippedAt(cfg, messages[1..], i - 1);
    }
  }

  /** The one-byte field is read as a signed char: of all the lengths the byte can hold, exactly those below 128
      come back as the message. */
  lemma {:induction false} OneByteFieldIff(cfg: Config, m: Message)
    requires cfg.Valid() && cfg.lengthFieldLength == 1 && Shaped(cfg, m)
    requires |m.payload| - cfg.lengthAdjustment <= 0xFF
    ensures var w := Written(cfg, m);
      Decode(cfg, Idle, w) == Step(|w|, Frame(w[cfg.initialBytesToStrip..]), Idle) <==>
        |m.payload| - cfg.lengthAdjustment <= 0x7F
  {
    var w := Written(cfg, m);
    if |m.payload| - cfg.lengthAdjustment <= 0x7F {
      MessageIsUnit(cfg, m);
      UnitStep(cfg, Unit(w, Frame(w[cfg.initialBytesToStrip..])), []);
      assert w + [] == w;
    } else {
      FieldWritten(cfg, m);
      LargeByteNegative(|m.payload| - cfg.lengthAdjustment);
    }
  }

  lemma LargeByteNegative(length: nat)
    requires 0x80 <= length <= 0xFF
    ensures Announced(Codec.ToBytes(length, 1)) < 0
  {
    Codec.Powers();
    Codec.ReadBack(length, 1);
  }

  // ----- The int cast of bytesToDiscard_ -----

  function Sum(sizes: seq<nat>): nat {
    if sizes == [] then 0 else sizes[0] + Sum(sizes[1..])
  }

  /** The total that discardingTooLongFrame skips over successive reads of the given sizes, with its
      min((int) bytesToDiscard, readableBytes). */
  function Skipped(toDiscard: int, sizes: seq<nat>): int
    decreases |sizes|
  {
    if sizes == [] then 0 else
    var n := Min(ToInt32(toDiscard), sizes[0]);
    n + Skipped(toDiscard - n, sizes[1..])
  }

  /** The cast keeps discarding exact on every sequence of reads if and only if the count fits an int. */
  lemma {:induction false} DiscardExactIff(toDiscard: int)
    requires 0 <= toDiscard
    ensures (forall sizes: seq<nat> :: Skipped(toDiscard, sizes) == Min(toDiscard, Sum(sizes))) <==>
      toDiscard <= INT_MAX
  {
    if toDiscard <= INT_MAX {
      forall sizes: seq<nat>
        ensures Skipped(toDiscard, sizes) == Min(toDiscard, Sum(sizes))
      {
        SkippedExact(toDiscard, sizes);
      }
    } else if ToInt32(toDiscard) != INT_MAX {
      var batch: seq<nat> := [INT_MAX];
      assert batch[1..] == [];
      assert Skipped(toDiscard, batch) == ToInt32(toDiscard) + Skipped(toDiscard - ToInt32(toDiscard), []);
      assert Sum(batch) == INT_MAX;
    } else {
      var batch: seq<nat> := [1, INT_MAX];
      assert batch[1..] == [INT_MAX] && batch[1..][1..] == [];
      assert ToInt32(toDiscard - 1) == INT_MAX - 1;
      assert Skipped(toDiscard - 1, [INT_MAX]) == INT_MAX - 1 + Skipped(toDiscard - INT_MAX, []);
      assert Sum(batch) == 1 + Sum([INT_MAX]) && Sum([INT_MAX]) == INT_MAX;
    }
  }

  lemma {:induction false} SkippedExact(toDiscard: int, sizes: seq<nat>)
    requires 0 <= toDiscard <= INT_MAX
    ensures Skipped(toDiscard, sizes) == Min(toDiscard, Sum(sizes))
    decreases |sizes|
  {
    if sizes != [] {
      SkippedExact(toDiscard - Min(toDiscard, sizes[0]), sizes[1..]);
    }
  }

  /** When no header announces more than an int holds, the count never leaves the int range. */
  lemma {:induction false} DiscardStaysInt(cfg: Config, mode: Mode, s: seq<byte>)
    requires cfg.Valid() && mode.Valid() && mode.toDiscard <= INT_MAX
    requires forall t: seq<byte> :: |t| >= cfg.EndOffset() ==> FrameLength(cfg, t) <= INT_MAX
    ensures Run(cfg, mode, s).mode.toDiscard <= INT_MAX
    decreases |s|
  {
    if s != [] {
      var step := Decode(cfg, mode, s);
      if step.consumed > 0 {
        DiscardStaysInt(cfg, step.mode, s[step.consumed..]);
      }
    }
  }

  /** One- and two-byte fields cannot announce that much. */
  lemma {:induction false} NarrowFieldsFit(cfg: Config, t: seq<byte>)
    requires cfg.Valid() && cfg.lengthFieldLength <= 2 && |t| >= cfg.EndOffset()
    requires cfg.lengthAdjustment + cfg.EndOffset() <= INT_MAX - 0xFFFF
    ensures FrameLength(cfg, t) <= INT_MAX
  {
  }

  /** A four-byte field can: this header leaves a count that the cast turns negative. */
  lemma {:induction false} WideFieldOverflows(cfg: Config)
    requires cfg == Config(8192, 0, 4, 0, 0, true, false)
    ensures
      var header: seq<byte> := [0x80, 0, 0, 4];
      var o := Run(cfg, Idle, header);
      o.mode == Mode(true, 0x8000_0008, 0x8000_0004) && Min(ToInt32(o.mode.toDiscard), 1) < 0
  {
    var header: seq<byte> := [0x80, 0, 0, 4];
    assert Codec.GetUInt(header, 0) == 0x8000_0004;
    assert header[4..] == [];
  }
}
