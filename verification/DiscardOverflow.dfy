/** The decode loop for counts of bytes to discard that an int cannot hold. The reader index can then leave the
    buffer, so the loop is followed by the index, the discard state and what the index arithmetic makes of them. */
module DiscardOverflow {
  import opened Words
  import opened FrameStream
  import opened CharBuf
  import Codec = HeapCharBufUtil

  datatype Kind = Nothing | Yields | Throws

  /** Where a decode call leaves the reader index and the discard state, and how it ends. */
  datatype Motion = Motion(reader: int, mode: Mode, kind: Kind)

  /** readableBytes(), in int arithmetic. */
  function Unread(writer: int, reader: int): int {
    ToInt32(writer - reader)
  }

  /** decode from the length field on, with the reader index anywhere before the end of the written bytes m. */
  function HeaderMotion(cfg: Config, m: seq<byte>, reader: int, mode: Mode): Motion
    requires cfg.Accepted() && |m| <= INT_MAX && INT_MIN <= reader <= |m|
  {
    var unread := Unread(|m|, reader);
    if unread < cfg.EndOffset() then Motion(reader, mode, Nothing)
    else if !cfg.Supported() then Motion(reader, mode, Throws)
    else if reader + cfg.lengthFieldOffset < 0 then Motion(reader, mode, Throws)
    else
      var value := FieldAt(cfg, m, reader + cfg.lengthFieldOffset);
      var length := ToInt64(value + (cfg.lengthAdjustment + cfg.EndOffset()));
      if value < 0 || length < cfg.EndOffset() then Motion(reader + cfg.EndOffset(), mode, Throws)
      else if length > cfg.maxFrameLength then Exceeded(cfg, |m|, reader, mode, length, unread)
      else if unread < length then Motion(reader, mode, Nothing)
      else Motion(reader + length, mode, if cfg.initialBytesToStrip > length then Throws else Yields)
  }

  /** exceededFrameLength; a count that is still outstanding keeps failIfNecessary from resetting the state. */
  function Exceeded(cfg: Config, writer: int, reader: int, mode: Mode, length: int, unread: int): Motion {
    if length > unread then
      Motion(writer, Mode(true, length, length - unread), if cfg.failFast then Throws else Nothing)
    else if mode.toDiscard == 0 then
      Motion(reader + length, Idle, Throws)
    else
      Motion(reader + length, mode.(tooLong := length), if cfg.failFast then Throws else Nothing)
  }

  /** One decode call. */
  function DecodeMotion(cfg: Config, m: seq<byte>, reader: int, mode: Mode): Motion
    requires cfg.Accepted() && |m| <= INT_MAX && INT_MIN <= reader <= |m|
  {
    if !mode.discarding then HeaderMotion(cfg, m, reader, mode)
    else
      var n := Min(ToInt32(mode.toDiscard), Unread(|m|, reader));
      if !ReadablePasses(reader, |m|, n) then Motion(reader, mode, Throws)
      else
        var next, left := ToInt32(reader + n), mode.toDiscard - n;
        if left != 0 then HeaderMotion(cfg, m, next, mode.(toDiscard := left))
        else if cfg.failFast then HeaderMotion(cfg, m, next, Idle)
        else Motion(next, Idle, Throws)
  }

  lemma MotionStaysBelow(cfg: Config, m: seq<byte>, reader: int, mode: Mode)
    requires cfg.Accepted() && |m| <= INT_MAX && INT_MIN <= reader <= |m|
    ensures INT_MIN <= DecodeMotion(cfg, m, reader, mode).reader <= |m|
  {
    if !mode.discarding {
      HeaderStaysBelow(cfg, m, reader, mode);
    } else {
      var n := Min(ToInt32(mode.toDiscard), Unread(|m|, reader));
      if ReadablePasses(reader, |m|, n) {
        HeaderStaysBelow(cfg, m, ToInt32(reader + n), mode.(toDiscard := mode.toDiscard - n));
        HeaderStaysBelow(cfg, m, ToInt32(reader + n), Idle);
      }
    }
  }

  lemma HeaderStaysBelow(cfg: Config, m: seq<byte>, reader: int, mode: Mode)
    requires cfg.Accepted() && |m| <= INT_MAX && INT_MIN <= reader <= |m|
    ensures INT_MIN <= HeaderMotion(cfg, m, reader, mode).reader <= |m|
  {
  }

  /** callDecode leaves its loop within k rounds. */
  predicate Ends(cfg: Config, m: seq<byte>, reader: int, mode: Mode, k: nat)
    requires cfg.Accepted() && |m| <= INT_MAX && INT_MIN <= reader <= |m|
    decreases k
  {
    reader == |m| || (k > 0 &&
      var d := DecodeMotion(cfg, m, reader, mode);
      MotionStaysBelow(cfg, m, reader, mode);
      || (d.kind == Nothing && Unread(|m|, d.reader) == Unread(|m|, reader))
      || (d.kind == Yields && cfg.singleDecode && Unread(|m|, d.reader) != Unread(|m|, reader))
      || Ends(cfg, m, d.reader, d.mode, k - 1))
  }

  /** The calls that never return: a field width that cannot be read, or a count that the cast makes negative
      and that moves the length field in front of the buffer. */
  predicate Stuck(cfg: Config, reader: nat, unread: nat, mode: Mode) {
    unread > 0 &&
    if !cfg.Supported() then unread >= cfg.EndOffset()
    else
      var back := ToInt32(mode.toDiscard);
      && mode.discarding && back < 0 && reader + back + cfg.lengthFieldOffset < 0
      && cfg.EndOffset() <= unread - back <= INT_MAX
  }

  // ----- Agreement with FrameStream -----

  function KindOf(event: Event): Kind {
    match event case Silent => Nothing case Frame(_) => Yields case Fail(_) => Throws
  }

  /** The motion d of a call that starts at the reader index is that of the step. */
  predicate Agrees(reader: nat, step: Step, d: Motion) {
    d == Motion(reader + step.consumed, step.mode, KindOf(step.event))
  }

  lemma HeaderIsDecode(cfg: Config, m: seq<byte>, reader: nat, s: seq<byte>)
    requires cfg.Accepted() && reader <= |m| <= INT_MAX && s == m[reader..]
    ensures Agrees(reader, DecodeHeader(cfg, Idle, s), HeaderMotion(cfg, m, reader, Idle))
  {
    if cfg.Supported() && |s| >= cfg.EndOffset() {
      SameFieldAt(cfg, m, reader, s);
    }
  }

  lemma SameFieldAt(cfg: Config, m: seq<byte>, reader: nat, s: seq<byte>)
    requires cfg.Valid() && reader <= |m| && s == m[reader..] && |s| >= cfg.EndOffset()
    ensures FieldAt(cfg, m, reader + cfg.lengthFieldOffset) == FieldValue(cfg, s)
  {
    assert forall k :: 0 <= k < |s| ==> s[k] == m[reader + k];
  }

  /** As long as the count fits an int, one decode call moves the reader index as FrameStream.Decode says. */
  lemma MotionIsDecode(cfg: Config, m: seq<byte>, reader: nat, mode: Mode)
    requires cfg.Accepted() && reader <= |m| <= INT_MAX && CanDecode(cfg, mode)
    ensures Agrees(reader, Decode(cfg, mode, m[reader..]), DecodeMotion(cfg, m, reader, mode))
  {
    if !mode.discarding {
      HeaderIsDecode(cfg, m, reader, m[reader..]);
    } else {
      var n := Min(mode.toDiscard, |m| - reader);
      DropTwice(m, reader, n);
      DiscardIsDecode(cfg, m, reader, m[reader..], mode, n, reader + n, m[reader + n..]);
    }
  }

  lemma DiscardIsDecode(cfg: Config, m: seq<byte>, reader: nat, s: seq<byte>, mode: Mode, n: nat, at: nat,
      rest: seq<byte>)
    requires cfg.Accepted() && reader <= |m| <= INT_MAX && CanDecode(cfg, mode) && mode.discarding
    requires s == m[reader..] && n == Min(mode.toDiscard, |s|) && at == reader + n && rest == s[n..] == m[at..]
    ensures Agrees(reader, Decode(cfg, mode, s), DecodeMotion(cfg, m, reader, mode))
  {
    DiscardMotion(cfg, m, reader, mode, n, at);
    DiscardStep(cfg, mode, s, n, rest);
    HeaderIsDecode(cfg, m, at, rest);
    SameMotion(cfg, reader, |s|, mode, n, at, DecodeHeader(cfg, Idle, rest), HeaderMotion(cfg, m, at, Idle),
      Decode(cfg, mode, s), DecodeMotion(cfg, m, reader, mode));
  }

  lemma DropTwice(m: seq<byte>, i: nat, n: nat)
    requires i + n <= |m|
    ensures m[i..][n..] == m[i + n..]
  {
  }

  /** A decode call that starts in the discard phase, by how it goes on behind it. */
  predicate AfterDiscard(cfg: Config, mode: Mode, n: nat, next: Step, step: Step) {
    step ==
      if n < mode.toDiscard then Step(n, Silent, mode.(toDiscard := mode.toDiscard - n))
      else if cfg.failFast then next.(consumed := n + next.consumed)
      else Step(n, Fail(TooLong(mode.tooLong)), Idle)
  }

  lemma DiscardStep(cfg: Config, mode: Mode, s: seq<byte>, n: nat, rest: seq<byte>)
    requires cfg.Accepted() && CanDecode(cfg, mode) && mode.discarding
    requires n == Min(mode.toDiscard, |s|) && rest == s[n..]
    ensures AfterDiscard(cfg, mode, n, DecodeHeader(cfg, Idle, rest), Decode(cfg, mode, s))
  {
  }

  /** The same for its motion. */
  predicate MovesAfterDiscard(cfg: Config, reader: nat, mode: Mode, n: nat, h: Motion, d: Motion) {
    d ==
      if n < mode.toDiscard then Motion(reader + n, mode.(toDiscard := mode.toDiscard - n), Nothing)
      else if cfg.failFast then h
      else Motion(reader + n, Idle, Throws)
  }

  lemma DiscardMotion(cfg: Config, m: seq<byte>, reader: nat, mode: Mode, n: nat, at: nat)
    requires cfg.Accepted() && reader <= |m| <= INT_MAX && CanDecode(cfg, mode) && mode.discarding
    requires n == Min(mode.toDiscard, |m| - reader) && at == reader + n
    ensures MovesAfterDiscard(cfg, reader, mode, n, HeaderMotion(cfg, m, at, Idle), DecodeMotion(cfg, m, reader, mode))
  {
    DiscardPhase(cfg, m, reader, mode, n);
  }

  lemma SameMotion(cfg: Config, reader: nat, unread: nat, mode: Mode, n: nat, at: nat, next: Step, h: Motion,
      step: Step, d: Motion)
    requires n == Min(mode.toDiscard, unread) && at == reader + n && AfterDiscard(cfg, mode, n, next, step)
    requires MovesAfterDiscard(cfg, reader, mode, n, h, d)
    requires Agrees(at, next, h)
    ensures Agrees(reader, step, d)
  {
  }

  // ----- When the loop ends -----

  /** The loop makes progress from here: the length field lies in the buffer, the cast does not turn the count
      negative. */
  predicate Forward(cfg: Config, writer: nat, reader: int, mode: Mode) {
    && cfg.Valid() && mode.Valid() && writer <= INT_MAX
    && INT_MIN <= reader <= writer && reader + cfg.lengthFieldOffset >= 0 && writer - reader <= INT_MAX
    && ToInt32(mode.toDiscard) >= 0
  }

  lemma HeaderForward(cfg: Config, m: seq<byte>, reader: int, mode: Mode)
    requires Forward(cfg, |m|, reader, mode)
    ensures var d := HeaderMotion(cfg, m, reader, mode);
      && (d.reader == |m| || Forward(cfg, |m|, d.reader, d.mode))
      && reader <= d.reader <= |m| && (d.reader == reader ==> d.kind == Nothing && d.mode == mode)
  {
  }

  /** What one round leaves. */
  predicate Advances(cfg: Config, writer: nat, reader: int, d: Motion) {
    && (d.reader == writer || Forward(cfg, writer, d.reader, d.mode))
    && reader <= d.reader <= writer && (d.reader == reader ==> d.kind == Nothing)
  }

  /** A round either changes nothing and yields nothing, or moves the reader index on. */
  lemma RoundForward(cfg: Config, m: seq<byte>, reader: int, mode: Mode)
    requires Forward(cfg, |m|, reader, mode)
    ensures Advances(cfg, |m|, reader, DecodeMotion(cfg, m, reader, mode))
  {
    if !mode.discarding {
      HeaderForward(cfg, m, reader, mode);
    } else {
      DiscardForward(cfg, m, reader, mode, Min(ToInt32(mode.toDiscard), |m| - reader));
    }
  }

  lemma DiscardForward(cfg: Config, m: seq<byte>, reader: int, mode: Mode, n: nat)
    requires Forward(cfg, |m|, reader, mode) && mode.discarding && n == Min(ToInt32(mode.toDiscard), |m| - reader)
    ensures Advances(cfg, |m|, reader, DecodeMotion(cfg, m, reader, mode))
  {
    var next, left := reader + n, mode.toDiscard - n;
    DiscardPhase(cfg, m, reader, mode, n);
    if left == 0 {
      if cfg.failFast {
        HeaderForward(cfg, m, next, Idle);
      }
    } else if next < |m| {
      assert ToInt32(left) == 0;
      HeaderForward(cfg, m, next, mode.(toDiscard := left));
    }
  }

  /** The part of a decode call in front of the header, when the count does not turn negative. */
  lemma DiscardPhase(cfg: Config, m: seq<byte>, reader: int, mode: Mode, n: nat)
    requires Forward(cfg, |m|, reader, mode) && mode.discarding && n == Min(ToInt32(mode.toDiscard), |m| - reader)
    ensures var next, left := reader + n, mode.toDiscard - n;
      DecodeMotion(cfg, m, reader, mode) ==
        if left == 0 then if cfg.failFast then HeaderMotion(cfg, m, next, Idle) else Motion(next, Idle, Throws)
        else if next == |m| then Motion(next, mode.(toDiscard := left), Nothing)
        else HeaderMotion(cfg, m, next, mode.(toDiscard := left))
  {
    assert ReadablePasses(reader, |m|, n) && ToInt32(reader + n) == reader + n;
  }

  lemma {:induction false} EndsMore(cfg: Config, m: seq<byte>, reader: int, mode: Mode, k: nat, more: nat)
    requires cfg.Accepted() && |m| <= INT_MAX && INT_MIN <= reader <= |m|
    requires Ends(cfg, m, reader, mode, k) && k <= more
    ensures Ends(cfg, m, reader, mode, more)
    decreases k
  {
    if k > 0 {
      var d := DecodeMotion(cfg, m, reader, mode);
      MotionStaysBelow(cfg, m, reader, mode);
      if Ends(cfg, m, d.reader, d.mode, k - 1) {
        EndsMore(cfg, m, d.reader, d.mode, k - 1, more - 1);
      }
    }
  }

  lemma {:induction false} ForwardEnds(cfg: Config, m: seq<byte>, reader: int, mode: Mode)
    requires Forward(cfg, |m|, reader, mode)
    ensures Ends(cfg, m, reader, mode, |m| - reader)
    decreases |m| - reader
  {
    if reader < |m| {
      var d := DecodeMotion(cfg, m, reader, mode);
      RoundForward(cfg, m, reader, mode);
      if d.reader > reader {
        if d.reader < |m| {
          ForwardEnds(cfg, m, d.reader, d.mode);
        }
        EndsMore(cfg, m, d.reader, d.mode, |m| - d.reader, |m| - reader - 1);
        EndsAfter(cfg, m, reader, mode, d, |m| - reader - 1);
      }
    }
  }

  /** A round that throws and changes nothing repeats for ever. */
  lemma {:induction false} RepeatsForEver(cfg: Config, m: seq<byte>, reader: int, mode: Mode, k: nat)
    requires cfg.Accepted() && |m| <= INT_MAX && INT_MIN <= reader < |m|
    requires DecodeMotion(cfg, m, reader, mode) == Motion(reader, mode, Throws)
    ensures !Ends(cfg, m, reader, mode, k)
    decreases k
  {
    if k > 0 {
      RepeatsForEver(cfg, m, reader, mode, k - 1);
    }
  }

  /** The first round with a negative cast: the index moves back, the rest of the count is a multiple of 2^32. */
  lemma BackwardRound(cfg: Config, m: seq<byte>, reader: nat, mode: Mode, left: Mode)
    requires cfg.Valid() && mode.Valid() && mode.discarding && reader < |m| <= INT_MAX
    requires ToInt32(mode.toDiscard) < 0 && left == mode.(toDiscard := mode.toDiscard - ToInt32(mode.toDiscard))
    ensures DecodeMotion(cfg, m, reader, mode) == HeaderMotion(cfg, m, reader + ToInt32(mode.toDiscard), left)
    ensures left.Valid() && ToInt32(left.toDiscard) == 0
  {
    var back := ToInt32(mode.toDiscard);
    CastLeft(mode.toDiscard, back);
    assert Unread(|m|, reader) == |m| - reader && Min(back, |m| - reader) == back;
    assert ReadablePasses(reader, |m|, back) && ToInt32(reader + back) == reader + back;
  }

  lemma CastLeft(count: int, cast: int)
    requires cast == ToInt32(count)
    ensures ToInt32(count - cast) == 0
  {
    var q := (count - cast) / 0x1_0000_0000;
    assert count - cast == q * 0x1_0000_0000;
  }

  /** From such a state a round that can see the whole buffer discards nothing more. */
  lemma NothingMore(cfg: Config, m: seq<byte>, reader: int, left: Mode)
    requires cfg.Valid() && left.Valid() && left.discarding && ToInt32(left.toDiscard) == 0
    requires INT_MIN <= reader <= |m| <= INT_MAX && |m| - reader <= INT_MAX
    ensures DecodeMotion(cfg, m, reader, left) == HeaderMotion(cfg, m, reader, left)
  {
  }

  lemma {:induction false} StuckNeverEnds(cfg: Config, m: seq<byte>, reader: nat, mode: Mode, k: nat)
    requires cfg.Accepted() && CanDiscard(cfg, mode) && reader <= |m| <= INT_MAX
    requires Stuck(cfg, reader, |m| - reader, mode)
    ensures !Ends(cfg, m, reader, mode, k)
  {
    if !cfg.Supported() {
      RepeatsForEver(cfg, m, reader, mode, k);
    } else if k > 0 {
      var back := ToInt32(mode.toDiscard);
      var left := mode.(toDiscard := mode.toDiscard - back);
      BackwardRound(cfg, m, reader, mode, left);
      NothingMore(cfg, m, reader + back, left);
      RepeatsForEver(cfg, m, reader + back, left, k - 1);
    }
  }

  /** A mode that the decoder can be in. */
  predicate CanDiscard(cfg: Config, mode: Mode) {
    mode.Valid() && (mode.discarding ==> cfg.Supported())
  }

  lemma EndsAfter(cfg: Config, m: seq<byte>, reader: int, mode: Mode, d: Motion, k: nat)
    requires cfg.Accepted() && |m| <= INT_MAX && INT_MIN <= reader <= |m| && INT_MIN <= d.reader <= |m|
    requires d == DecodeMotion(cfg, m, reader, mode) && Ends(cfg, m, d.reader, d.mode, k)
    ensures Ends(cfg, m, reader, mode, k + 1)
  {
  }

  /** Too few bytes behind the new index, or more than an int can count: two rounds end the loop. */
  lemma BackwardEnds(cfg: Config, m: seq<byte>, reader: nat, mode: Mode, left: Mode, next: int)
    requires cfg.Valid() && mode.Valid() && mode.discarding && reader < |m| <= INT_MAX
    requires ToInt32(mode.toDiscard) < 0 && left == mode.(toDiscard := mode.toDiscard - ToInt32(mode.toDiscard))
    requires next == reader + ToInt32(mode.toDiscard) && !(cfg.EndOffset() <= |m| - next <= INT_MAX)
    ensures Ends(cfg, m, reader, mode, 2)
  {
    BackwardRound(cfg, m, reader, mode, left);
    SecondRoundEnds(cfg, m, next, left);
    assert DecodeMotion(cfg, m, reader, mode) == Motion(next, left, Nothing);
    EndsAfter(cfg, m, reader, mode, Motion(next, left, Nothing), 1);
  }

  lemma SecondRoundEnds(cfg: Config, m: seq<byte>, next: int, left: Mode)
    requires cfg.Valid() && left.Valid() && left.discarding && ToInt32(left.toDiscard) == 0
    requires INT_MIN <= next < |m| <= INT_MAX && !(cfg.EndOffset() <= |m| - next <= INT_MAX)
    ensures HeaderMotion(cfg, m, next, left) == Motion(next, left, Nothing) && Ends(cfg, m, next, left, 1)
  {
    if |m| - next <= INT_MAX {
      NothingMore(cfg, m, next, left);
    } else {
      WrapsToTheEnd(cfg, m, next, left);
    }
  }

  lemma WrapsToTheEnd(cfg: Config, m: seq<byte>, reader: int, left: Mode)
    requires cfg.Valid() && left.Valid() && left.discarding && ToInt32(left.toDiscard) == 0
    requires INT_MIN <= reader < |m| <= INT_MAX && |m| - reader > INT_MAX
    ensures DecodeMotion(cfg, m, reader, left).reader == |m|
  {
    assert Unread(|m|, reader) == |m| - reader - 0x1_0000_0000;
  }

  /** The length field is still in the buffer: the loop goes on from the new index. */
  lemma BackwardForward(cfg: Config, m: seq<byte>, reader: nat, mode: Mode, left: Mode) returns (k: nat)
    requires cfg.Valid() && mode.Valid() && mode.discarding && reader < |m| <= INT_MAX
    requires ToInt32(mode.toDiscard) < 0 && left == mode.(toDiscard := mode.toDiscard - ToInt32(mode.toDiscard))
    requires reader + ToInt32(mode.toDiscard) + cfg.lengthFieldOffset >= 0
    requires |m| - reader - ToInt32(mode.toDiscard) <= INT_MAX
    ensures Ends(cfg, m, reader, mode, k)
  {
    var next := reader + ToInt32(mode.toDiscard);
    BackwardRound(cfg, m, reader, mode, left);
    HeaderForward(cfg, m, next, left);
    var d := HeaderMotion(cfg, m, next, left);
    if d.reader < |m| {
      ForwardEnds(cfg, m, d.reader, d.mode);
    }
    EndsAfter(cfg, m, reader, mode, d, |m| - d.reader);
    k := |m| - d.reader + 1;
  }

  /** callDecode returns if and only if it is not stuck, for every accepted configuration, every state of the
      discard and every buffer. */
  lemma {:induction false} CallDecodeEndsIff(cfg: Config, m: seq<byte>, reader: nat, mode: Mode)
    requires cfg.Accepted() && CanDiscard(cfg, mode) && reader <= |m| <= INT_MAX
    ensures (exists k: nat :: Ends(cfg, m, reader, mode, k)) <==> !Stuck(cfg, reader, |m| - reader, mode)
  {
    if Stuck(cfg, reader, |m| - reader, mode) {
      forall k: nat
        ensures !Ends(cfg, m, reader, mode, k)
      {
        StuckNeverEnds(cfg, m, reader, mode, k);
      }
    } else {
      var rounds := RoundsToEnd(cfg, m, reader, mode);
      EndsSome(cfg, m, reader, mode, rounds);
    }
  }

  lemma EndsSome(cfg: Config, m: seq<byte>, reader: int, mode: Mode, k: nat)
    requires cfg.Accepted() && |m| <= INT_MAX && INT_MIN <= reader <= |m|
    requires Ends(cfg, m, reader, mode, k)
    ensures exists k': nat :: Ends(cfg, m, reader, mode, k')
  {
  }

  lemma RoundsToEnd(cfg: Config, m: seq<byte>, reader: nat, mode: Mode) returns (k: nat)
    requires cfg.Accepted() && CanDiscard(cfg, mode) && reader <= |m| <= INT_MAX
    requires !Stuck(cfg, reader, |m| - reader, mode)
    ensures Ends(cfg, m, reader, mode, k)
  {
    if reader == |m| {
      return 0;
    }
    if !cfg.Supported() {
      assert HeaderMotion(cfg, m, reader, mode) == Motion(reader, mode, Nothing);
      return 1;
    }
    var back := ToInt32(mode.toDiscard);
    if back >= 0 {
      ForwardEnds(cfg, m, reader, mode);
      return |m| - reader;
    }
    var left := mode.(toDiscard := mode.toDiscard - back);
    if cfg.EndOffset() <= |m| - reader - back <= INT_MAX {
      k := BackwardForward(cfg, m, reader, mode, left);
    } else {
      BackwardEnds(cfg, m, reader, mode, left, reader + back);
      k := 2;
    }
  }

  /** As long as the count fits an int only an unsupported width can keep callDecode from returning. */
  lemma FittingCountEnds(cfg: Config, m: seq<byte>, reader: nat, mode: Mode)
    requires cfg.Valid() && CanDecode(cfg, mode) && reader <= |m| <= INT_MAX
    ensures exists k: nat :: Ends(cfg, m, reader, mode, k)
  {
    CallDecodeEndsIff(cfg, m, reader, mode);
  }

  /** Five bytes in two reads: the header 0x80000004 leaves a count of 2^31 + 4, and the next byte starts a call that
      never returns. */
  lemma {:induction false} FiveBytesHang(cfg: Config, header: seq<byte>, more: seq<byte>, k: nat)
    requires cfg == Config(8192, 0, 4, 0, 0, true, false) && header == [0x80, 0, 0, 4] && more == [7]
    ensures var o := Run(cfg, Idle, header);
      o.rest == [] && o.mode == Mode(true, 0x8000_0008, 0x8000_0004) && !Ends(cfg, more, 0, o.mode, k)
  {
    assert Codec.GetUInt(header, 0) == 0x8000_0004;
    assert header[4..] == [];
    StuckNeverEnds(cfg, more, 0, Mode(true, 0x8000_0008, 0x8000_0004), k);
  }
}
