/** LengthFieldBasedFrameDecoder with the ByteToMessageDecoder it extends, as an object over char buffers.
    Each method is proved to do what FrameStream says of the unread bytes. */
module LengthFieldBasedFrameDecoder {
  import opened Words
  import opened FrameStream
  import opened CharBuf

  class FrameDecoder {
    // ByteToMessageDecoder
    var cumulation: UnpooledHeapCharBuf?
    var singleDecode: bool
    var first: bool
    var numReads: int
    const discardAfterReads: int := 4
    // LengthFieldBasedFrameDecoder
    var maxFrameLength: int
    var lengthFieldOffset: int
    var lengthFieldLength: int
    var lengthFieldEndOffset: int
    var lengthAdjustment: int
    var initialBytesToStrip: int
    var failFast: bool
    var discardingTooLongFrame: bool
    var tooLongFrameLength: int
    var bytesToDiscard: int

    function Cfg(): Config
      reads this
    {
      Config(maxFrameLength, lengthFieldOffset, lengthFieldLength,
        lengthAdjustment, initialBytesToStrip, failFast, singleDecode)
    }

    function CurrentMode(): Mode
      reads this
    {
      Mode(discardingTooLongFrame, tooLongFrameLength, bytesToDiscard)
    }

    ghost predicate Valid()
      reads this
    {
      && Cfg().Accepted() && CurrentMode().Valid() && (discardingTooLongFrame ==> Cfg().Supported())
      && lengthFieldEndOffset == Cfg().EndOffset()
    }

    /** The object can take another decode call: bytesToDiscard_ survives the cast to int. */
    ghost predicate CastSafe()
      reads this
    {
      bytesToDiscard <= INT_MAX
    }

    /** The bytes received and not yet decoded. */
    function Pending(): seq<byte>
      reads this, cumulation, if cumulation == null then {} else {cumulation.memory}
      requires cumulation != null ==> cumulation.Valid()
    {
      if cumulation == null then [] else cumulation.Readable()
    }

    constructor (cfg: Config)
      ensures Cfg() == cfg && CurrentMode() == Idle && cumulation == null && numReads == 0
      ensures Valid() <==> cfg.Accepted()
    {
      cumulation, first, numReads := null, true, 0;
      singleDecode := cfg.singleDecode;
      maxFrameLength := cfg.maxFrameLength;
      lengthFieldOffset, lengthFieldLength := cfg.lengthFieldOffset, cfg.lengthFieldLength;
      lengthFieldEndOffset := cfg.lengthFieldOffset + cfg.lengthFieldLength;
      lengthAdjustment, initialBytesToStrip, failFast := cfg.lengthAdjustment, cfg.initialBytesToStrip, cfg.failFast;
      discardingTooLongFrame, tooLongFrameLength, bytesToDiscard := false, 0, 0;
    }

    /** init with its argument checks, in 32-bit arithmetic: None is the IllegalArgumentException. */
    static method Create(maxFrameLength: int, lengthFieldOffset: int, lengthFieldLength: int, lengthAdjustment: int,
        initialBytesToStrip: int) returns (r: Option<FrameDecoder>)
      requires INT_MIN <= maxFrameLength <= INT_MAX && INT_MIN <= lengthFieldOffset <= INT_MAX
      requires INT_MIN <= lengthFieldLength <= INT_MAX && INT_MIN <= initialBytesToStrip <= INT_MAX
      ensures r.Some? <==>
        && maxFrameLength > 0 && lengthFieldOffset >= 0 && initialBytesToStrip >= 0
        && lengthFieldOffset <= maxFrameLength - lengthFieldLength <= INT_MAX
      ensures r.Some? ==>
        var cfg := Config(maxFrameLength, lengthFieldOffset, lengthFieldLength,
          lengthAdjustment, initialBytesToStrip, true, false);
        && fresh(r.value) && r.value.Cfg() == cfg && r.value.CurrentMode() == Idle && r.value.cumulation == null
        && (r.value.Valid() <==> INT_MIN <= lengthAdjustment + cfg.EndOffset() <= INT_MAX)
    {
      if maxFrameLength <= 0 || lengthFieldOffset < 0 || initialBytesToStrip < 0 {
        return None;
      }
      if lengthFieldOffset > ToInt32(maxFrameLength - lengthFieldLength) {
        return None;
      }
      var d := new FrameDecoder(
        Config(maxFrameLength, lengthFieldOffset, lengthFieldLength,
          lengthAdjustment, initialBytesToStrip, true, false));
      r := Some(d);
    }

    // ----- LengthFieldBasedFrameDecoder -----

    /** The exception to throw, if any. */
    method FailIfNecessary(firstDetectionOfTooLongFrame: bool) returns (thrown: Option<Reason>)
      modifies `discardingTooLongFrame, `tooLongFrameLength
      ensures CurrentMode() == if bytesToDiscard == 0 then Idle else old(CurrentMode())
      ensures thrown ==
        if (if bytesToDiscard == 0 then !failFast || firstDetectionOfTooLongFrame
            else failFast && firstDetectionOfTooLongFrame)
        then Some(TooLong(old(tooLongFrameLength))) else None
    {
      if bytesToDiscard == 0 {
        var length := tooLongFrameLength;
        tooLongFrameLength := 0;
        discardingTooLongFrame := false;
        if !failFast || firstDetectionOfTooLongFrame {
          return Some(TooLong(length));
        }
      } else {
        if failFast && firstDetectionOfTooLongFrame {
          return Some(TooLong(tooLongFrameLength));
        }
      }
      thrown := None;
    }

    method ExceededFrameLength(input: UnpooledHeapCharBuf, frameLength: int) returns (thrown: Option<Reason>)
      requires Valid() && !discardingTooLongFrame && input.Valid() && frameLength > 0
      modifies `discardingTooLongFrame, `tooLongFrameLength, `bytesToDiscard, input`readerIndex
      ensures input.Valid()
      ensures var s := old(input.Readable());
        if frameLength <= |s| then
          input.Readable() == s[frameLength..] && CurrentMode() == Idle && thrown == Some(TooLong(frameLength))
        else
          && input.Readable() == [] && CurrentMode() == Mode(true, frameLength, frameLength - |s|)
          && thrown == if failFast then Some(TooLong(frameLength)) else None
    {
      var discard := frameLength - input.ReadableBytes();
      tooLongFrameLength := frameLength;
      if discard <= 0 {
        var ok := input.SkipBytes(frameLength);
      } else {
        discardingTooLongFrame := true;
        bytesToDiscard := discard;
        var ok := input.SkipBytes(input.ReadableBytes());
      }
      thrown := FailIfNecessary(true);
    }

    /** What the cast count and the readable bytes allow is skipped; a count that the cast makes negative moves the
        reader index back. */
    method DiscardingTooLongFrame(input: UnpooledHeapCharBuf) returns (thrown: Option<Reason>)
      requires Valid() && discardingTooLongFrame && input.Valid()
      modifies `discardingTooLongFrame, `tooLongFrameLength, `bytesToDiscard, input`readerIndex
      ensures var n := Min(ToInt32(old(bytesToDiscard)), old(input.ReadableBytes()));
        && input.readerIndex == ToInt32(old(input.readerIndex) + n)
        && CurrentMode() == (if n == old(bytesToDiscard) then Idle
                             else old(CurrentMode()).(toDiscard := old(bytesToDiscard) - n))
        && thrown == if n == old(bytesToDiscard) && !failFast then Some(TooLong(old(tooLongFrameLength))) else None
      ensures old(CastSafe()) ==>
        && input.Valid()
        && input.Readable() == old(input.Readable())[Min(old(bytesToDiscard), old(input.ReadableBytes()))..]
    {
      var toDiscard := bytesToDiscard;
      var localBytesToDiscard := Min(ToInt32(toDiscard), input.ReadableBytes());
      var ok := input.SkipBytes(localBytesToDiscard);
      toDiscard := toDiscard - localBytesToDiscard;
      bytesToDiscard := toDiscard;
      thrown := FailIfNecessary(false);
    }

    /** None is the exception for an unsupported width. */
    method GetUnadjustedFrameLength(buf: UnpooledHeapCharBuf, offset: nat, length: int) returns (r: Option<int>)
      requires Valid() && buf.Valid() && length == lengthFieldLength && offset == buf.readerIndex + lengthFieldOffset
      requires |buf.Readable()| >= Cfg().EndOffset()
      ensures r.Some? <==> length in {1, 2, 4, 8}
      ensures r.Some? ==> r.value == FieldValue(Cfg(), buf.Readable())
    {
      var memory := buf.memory[..];
      match length
      case 1 => r := Some(Codec.GetChar(memory, offset));
      case 2 => r := Some(Codec.GetUShort(memory, offset));
      case 4 => r := Some(Codec.GetUInt(memory, offset));
      case 8 => r := Some(Codec.GetLong(memory, offset));
      case _ => r := None;
      SameField(memory, buf.readerIndex, buf.writerIndex, offset, lengthFieldOffset);
    }

    /** One decode call. */
    method Decode(input: UnpooledHeapCharBuf) returns (event: Event)
      requires Valid() && CastSafe() && input.Valid()
      modifies `discardingTooLongFrame, `tooLongFrameLength, `bytesToDiscard, input`readerIndex, input`refCnt
      ensures Valid() && input.Valid()
      ensures var step := FrameStream.Decode(Cfg(), old(CurrentMode()), old(input.Readable()));
        event == step.event && CurrentMode() == step.mode && input.Readable() == old(input.Readable())[step.consumed..]
    {
      if discardingTooLongFrame {
        assert ToInt32(bytesToDiscard) == bytesToDiscard;
        var thrown := DiscardingTooLongFrame(input);
        if thrown.Some? {
          return Fail(thrown.value);
        }
      }
      ghost var mode, s := CurrentMode(), input.Readable();
      assert old(discardingTooLongFrame) && mode.discarding ==> s == [];
      event := DecodeHeader(input);
    }

    /** decode from its second statement on. */
    method DecodeHeader(input: UnpooledHeapCharBuf) returns (event: Event)
      requires Valid() && input.Valid() && (discardingTooLongFrame ==> input.Readable() == [])
      modifies `discardingTooLongFrame, `tooLongFrameLength, `bytesToDiscard, input`readerIndex, input`refCnt
      ensures Valid() && input.Valid()
      ensures discardingTooLongFrame && !old(discardingTooLongFrame) ==> input.Readable() == []
      ensures old(discardingTooLongFrame) ==>
        event == Silent && CurrentMode() == old(CurrentMode()) && input.Readable() == old(input.Readable())
      ensures !old(discardingTooLongFrame) ==>
        var step := FrameStream.DecodeHeader(Cfg(), old(CurrentMode()), old(input.Readable()));
        event == step.event && CurrentMode() == step.mode && input.Readable() == old(input.Readable())[step.consumed..]
    {
      ghost var mode, s := CurrentMode(), input.Readable();
      if input.ReadableBytes() < lengthFieldEndOffset {
        return Silent;
      }
      var actualLengthFieldOffset := input.readerIndex + lengthFieldOffset;
      var field := GetUnadjustedFrameLength(input, actualLengthFieldOffset, lengthFieldLength);
      if field == None {
        return Fail(Unsupported);
      }
      ghost var step := HeaderRead(Cfg(), mode, s, field.value);
      event := DecodeLength(input, field.value, step);
    }

    /** decode once the length field is read. */
    method DecodeLength(input: UnpooledHeapCharBuf, field: int, ghost step: Step) returns (event: Event)
      requires Valid() && Cfg().Supported() && !discardingTooLongFrame && input.Valid()
      requires |input.Readable()| >= lengthFieldEndOffset
      requires step ==
        HeaderStep(Cfg(), input.Readable(), field, ToInt64(field + (lengthAdjustment + lengthFieldEndOffset)))
      modifies `discardingTooLongFrame, `tooLongFrameLength, `bytesToDiscard, input`readerIndex, input`refCnt
      ensures Valid() && input.Valid() && (discardingTooLongFrame ==> input.Readable() == [])
      ensures event == step.event && CurrentMode() == step.mode
      ensures input.Readable() == old(input.Readable())[step.consumed..]
    {
      if field < 0 {
        var ok := input.SkipBytes(lengthFieldEndOffset);
        return Fail(Negative(field));
      }
      var frameLength := ToInt64(field + (lengthAdjustment + lengthFieldEndOffset));
      if frameLength < lengthFieldEndOffset {
        var ok := input.SkipBytes(lengthFieldEndOffset);
        return Fail(BelowHeader(frameLength));
      }
      event := DecodeFrame(input, frameLength);
    }

    /** decode from the comparison with maxFrameLength on. */
    method DecodeFrame(input: UnpooledHeapCharBuf, frameLength: int) returns (event: Event)
      requires Valid() && Cfg().Supported() && !discardingTooLongFrame && input.Valid() && 0 < frameLength
      modifies `discardingTooLongFrame, `tooLongFrameLength, `bytesToDiscard, input`readerIndex, input`refCnt
      ensures Valid() && input.Valid() && (discardingTooLongFrame ==> input.Readable() == [])
      ensures var step := FrameStep(Cfg(), old(input.Readable()), frameLength);
        event == step.event && CurrentMode() == step.mode && input.Readable() == old(input.Readable())[step.consumed..]
    {
      if frameLength > maxFrameLength {
        var thrown := ExceededFrameLength(input, frameLength);
        return if thrown.Some? then Fail(thrown.value) else Silent;
      }
      var frameLengthInt := ToInt32(frameLength);
      if input.ReadableBytes() < frameLengthInt {
        return Silent;
      }
      if initialBytesToStrip > frameLengthInt {
        var ok := input.SkipBytes(frameLengthInt);
        return Fail(BelowStrip(frameLength));
      }
      var frame := ExtractFrame(input, frameLengthInt);
      event := Frame(frame);
    }

    /** The strip, the retained slice and the move of the reader index behind the frame. */
    method ExtractFrame(input: UnpooledHeapCharBuf, frameLength: nat) returns (frame: seq<byte>)
      requires input.Valid() && 0 <= initialBytesToStrip <= frameLength <= |input.Readable()|
      modifies input`readerIndex, input`refCnt
      ensures input.Valid() && input.refCnt == old(input.refCnt) + 1
      ensures frame == old(input.Readable())[initialBytesToStrip..frameLength]
      ensures input.Readable() == old(input.Readable())[frameLength..]
    {
      ghost var from := input.readerIndex;
      SubSlice(input.memory[..], from, input.writerIndex, from + initialBytesToStrip, from + frameLength);
      var ok := input.SkipBytes(initialBytesToStrip);
      var index := input.readerIndex;
      var actualFrameLength := frameLength - initialBytesToStrip;
      frame := input.memory[index..index + actualFrameLength];
      input.Retain();
      ok := input.SetReaderIndex(index + actualFrameLength);
    }

    // ----- ByteToMessageDecoder -----

    /** One decode call of the loop, with what it leaves to do for the run o. */
    method DecodeRemovalReentryProtection(input: UnpooledHeapCharBuf, ghost o: Outcome, ghost fired: seq<seq<byte>>,
        ghost threw: bool) returns (event: Event)
      requires Valid() && Cfg().Valid() && CastSafe() && input.Valid() && input.Readable() != []
      requires InProgress(o, Cfg(), CurrentMode(), input.Readable(), fired, [], threw)
      modifies `discardingTooLongFrame, `tooLongFrameLength, `bytesToDiscard, input`readerIndex, input`refCnt
      ensures Valid() && input.Valid() && input.ReadableBytes() <= old(input.ReadableBytes())
      ensures discardingTooLongFrame ==> input.Readable() == []
      ensures input.ReadableBytes() == old(input.ReadableBytes()) ==>
        event == Silent && Done(o, CurrentMode(), input.Readable(), fired, [], threw)
      ensures event.Frame? && singleDecode ==> Done(o, CurrentMode(), input.Readable(), fired, [event.bytes], threw)
      ensures input.ReadableBytes() < old(input.ReadableBytes()) && !(event.Frame? && singleDecode) ==>
        InProgress(o, Cfg(), CurrentMode(), input.Readable(), fired, Passed(event), threw || event.Fail?)
    {
      ghost var before, mode := input.Readable(), CurrentMode();
      event := Decode(input);
      ProgressStep(Cfg(), mode, before, FrameStream.Decode(Cfg(), mode, before), o, fired, [], threw);
      assert fired + [] == fired;
    }

    /** One turn of the loop: fire what the last one found, then decode. */
    method Turn(input: UnpooledHeapCharBuf, ghost o: Outcome, held: seq<seq<byte>>, before: seq<seq<byte>>,
        failed: bool)
      returns (out: seq<seq<byte>>, fired: seq<seq<byte>>, threw: bool, stop: bool)
      requires Valid() && Cfg().Valid() && CastSafe() && input.Valid() && input.Readable() != []
      requires InProgress(o, Cfg(), CurrentMode(), input.Readable(), before, held, failed)
      modifies `discardingTooLongFrame, `tooLongFrameLength, `bytesToDiscard, input`readerIndex, input`refCnt
      ensures Valid() && input.Valid() && input.ReadableBytes() <= old(input.ReadableBytes())
      ensures discardingTooLongFrame ==> input.Readable() == []
      ensures stop ==> Done(o, CurrentMode(), input.Readable(), fired, out, threw)
      ensures !stop ==> input.ReadableBytes() < old(input.ReadableBytes())
      ensures !stop ==> InProgress(o, Cfg(), CurrentMode(), input.Readable(), fired, out, threw)
    {
      FlushProgress(o, Cfg(), CurrentMode(), input.Readable(), before, held, failed);
      fired, out, threw, stop := before, [], failed, false;
      if |held| > 0 {
        fired := fired + held;
      }
      var oldInputLength := input.ReadableBytes();
      var event := DecodeRemovalReentryProtection(input, o, fired, threw);
      if event.Fail? {
        threw := true;
      } else if event == Silent {
        stop := oldInputLength == input.ReadableBytes();
      } else {
        out := [event.bytes];
        stop := singleDecode;
      }
    }

    /** The decode loop: the frames it fires, those it leaves in `out`, and whether it rethrows at the end. */
    method CallDecode(input: UnpooledHeapCharBuf) returns (out: seq<seq<byte>>, fired: seq<seq<byte>>, threw: bool)
      requires Valid() && Cfg().Valid() && CastSafe() && input.Valid()
      modifies `discardingTooLongFrame, `tooLongFrameLength, `bytesToDiscard, input`readerIndex, input`refCnt
      ensures Valid() && input.Valid()
      ensures var o := Run(Cfg(), old(CurrentMode()), old(input.Readable()));
        Done(o, CurrentMode(), input.Readable(), fired, out, threw)
    {
      out, fired, threw := [], [], false;
      ghost var o := Run(Cfg(), CurrentMode(), input.Readable());
      StartProgress(Cfg(), CurrentMode(), input.Readable());
      while input.readerIndex < input.writerIndex
        invariant Valid() && input.Valid() && (discardingTooLongFrame && input.Readable() != [] ==> CastSafe())
        invariant InProgress(o, Cfg(), CurrentMode(), input.Readable(), fired, out, threw)
        decreases input.ReadableBytes()
      {
        var stop;
        out, fired, threw, stop := Turn(input, o, out, fired, threw);
        if stop {
          return;
        }
      }
      EndProgress(o, Cfg(), CurrentMode(), input.Readable(), fired, out, threw);
    }

    /** Compaction waits until no frame slice shares the storage. */
    method DiscardSomeReadBytes()
      requires cumulation != null ==> cumulation.Valid()
      modifies cumulation, if cumulation == null then {} else {cumulation.memory}
      ensures cumulation != null ==> cumulation.Valid() && cumulation.memory == old(cumulation.memory)
      ensures Pending() == old(Pending())
      ensures cumulation != null ==> cumulation.writerIndex <= old(cumulation.writerIndex)
      ensures cumulation != null && (first || old(cumulation.refCnt) != 1) ==>
        unchanged(cumulation) && unchanged(cumulation.memory)
      ensures cumulation != null && !first && old(cumulation.refCnt) == 1 ==>
        cumulation.readerIndex == if old(cumulation.Readable()) == [] ||
          old(cumulation.readerIndex) >= cumulation.Capacity() / 2 then 0 else old(cumulation.readerIndex)
    {
      if cumulation != null && !first && cumulation.refCnt == 1 {
        cumulation.DiscardSomeReadBytes();
      }
    }

    method ResetCumulation()
      requires cumulation != null ==> cumulation.Valid()
      modifies `cumulation, `numReads, cumulation, if cumulation == null then {} else {cumulation.memory}
      ensures cumulation != null ==>
        cumulation == old(cumulation) && cumulation.Valid() && cumulation.memory == old(cumulation.memory)
      ensures Pending() == old(Pending())
      ensures cumulation != null ==> Pending() != []
      ensures cumulation != null ==> cumulation.writerIndex <= old(cumulation.writerIndex)
      ensures old(cumulation) != null && old(Pending()) == [] ==>
        cumulation == null && numReads == 0 && old(cumulation).refCnt == old(cumulation.refCnt) - 1
      ensures old(cumulation) != null && old(Pending()) != [] ==> cumulation == old(cumulation)
      ensures old(cumulation) == null || old(Pending()) != [] ==>
        numReads == if old(numReads) + 1 >= 4 then 0 else old(numReads) + 1
      ensures cumulation != null && (first || old(numReads) + 1 < 4 || old(cumulation.refCnt) != 1) ==>
        unchanged(cumulation) && unchanged(cumulation.memory)
      ensures cumulation != null && !first && old(numReads) + 1 >= 4 && old(cumulation.refCnt) == 1 ==>
        (old(cumulation.readerIndex) >= cumulation.Capacity() / 2 ==> cumulation.readerIndex == 0)
    {
      if cumulation != null && !(cumulation.readerIndex < cumulation.writerIndex) {
        numReads := 0;
        cumulation.Release();
        cumulation := null;
      } else {
        numReads := numReads + 1;
        if numReads >= discardAfterReads {
          numReads := 0;
          DiscardSomeReadBytes();
        }
      }
    }

    /** The cumulation can take n more bytes: the total fits an int, and the buffer can grow to it or is replaced. */
    predicate CanTake(n: int)
      requires cumulation != null
      reads this, cumulation
    {
      var total := cumulation.writerIndex + n;
      total <= INT_MAX && (total <= cumulation.maxCapacity ==> cumulation.GrowthDefined(n))
    }

    /** MergeCumulator::cumulate, with expandCumulation when the cumulation cannot take the new bytes. */
    method Cumulate(data: UnpooledHeapCharBuf)
      requires cumulation != null && cumulation.Valid() && data.Valid()
      requires cumulation != data && cumulation.memory != data.memory && CanTake(data.ReadableBytes())
      modifies `cumulation, cumulation, cumulation.memory, data`readerIndex
      ensures cumulation != null && cumulation.Valid() && data.Valid()
      ensures cumulation == old(cumulation) || (fresh(cumulation) && fresh(cumulation.memory))
      ensures cumulation.memory == old(cumulation.memory) || fresh(cumulation.memory)
      ensures cumulation.Readable() == old(cumulation.Readable()) + old(data.Readable())
      ensures cumulation.writerIndex <= old(cumulation.writerIndex) + old(data.ReadableBytes())
      ensures cumulation == old(cumulation) <==>
        old(cumulation.writerIndex) + old(data.ReadableBytes()) <= old(cumulation.maxCapacity)
      ensures old(cumulation).refCnt == old(cumulation.refCnt) - if cumulation == old(cumulation) then 0 else 1
    {
      if cumulation.writerIndex + data.ReadableBytes() > cumulation.maxCapacity {
        ExpandCumulation(data.ReadableBytes());
      }
      ghost var kept := cumulation.Readable();
      var ok := cumulation.WriteFrom(data, data.ReadableBytes());
      assert cumulation.Readable() == kept + old(data.Readable());
    }

    method ExpandCumulation(readable: nat)
      requires cumulation != null && cumulation.Valid() && cumulation.ReadableBytes() + readable <= INT_MAX
      modifies `cumulation, cumulation`readerIndex, cumulation`refCnt
      ensures cumulation != null && cumulation.Valid() && fresh(cumulation) && fresh(cumulation.memory)
      ensures cumulation.Readable() == old(cumulation.Readable())
      ensures cumulation.writerIndex == old(cumulation.ReadableBytes())
      ensures readable <= cumulation.WritableBytes() && cumulation.maxCapacity == INT_MAX && cumulation.refCnt == 1
      ensures old(cumulation).refCnt == old(cumulation.refCnt) - 1
    {
      var oldCumulation := cumulation;
      cumulation := new UnpooledHeapCharBuf(oldCumulation.ReadableBytes() + readable, INT_MAX);
      var ok := cumulation.WriteFrom(oldCumulation, oldCumulation.ReadableBytes());
      oldCumulation.Release();
    }

    /** The first half of channelRead: the message becomes the cumulation or is appended to it. */
    method Receive(data: UnpooledHeapCharBuf)
      requires data.Valid()
      requires cumulation != null ==>
        && cumulation.Valid() && cumulation != data && cumulation.memory != data.memory
        && CanTake(data.ReadableBytes())
      modifies `first, `cumulation, data, cumulation, if cumulation == null then {} else {cumulation.memory}
      ensures cumulation != null && cumulation.Valid()
      ensures cumulation in {old(cumulation), data} || fresh(cumulation)
      ensures fresh(cumulation.memory) || (cumulation == data && cumulation.memory == old(data.memory))
           || (cumulation == old(cumulation) && cumulation.memory == old(cumulation.memory))
      ensures cumulation.Readable() == old(Pending()) + old(data.Readable())
      ensures first <==> old(cumulation) == null
      ensures first ==> cumulation == data && data.refCnt == old(data.refCnt) + 1
      ensures cumulation.writerIndex <=
        old(if cumulation == null then 0 else cumulation.writerIndex) + old(data.writerIndex)
    {
      first := cumulation == null;
      if first {
        cumulation := data;
        cumulation.Retain();
        assert cumulation.Readable() == [] + old(data.Readable());
      } else {
        Cumulate(data);
      }
    }

    /** The second half: decode what the cumulation holds and pass the frames on. */
    method Process() returns (delivered: seq<seq<byte>>, threw: bool)
      requires Valid() && Cfg().Valid() && CastSafe() && cumulation != null && cumulation.Valid()
      modifies this, cumulation, cumulation.memory
      ensures Valid() && Cfg() == old(Cfg())
      ensures cumulation != null ==> cumulation == old(cumulation) && cumulation.Valid()
      ensures cumulation != null ==> Pending() != [] && cumulation.memory == old(cumulation.memory)
      ensures cumulation != null ==> cumulation.writerIndex <= old(cumulation.writerIndex)
      ensures var o := Run(old(Cfg()), old(CurrentMode()), old(cumulation.Readable()));
        Passes(o, CurrentMode(), Pending(), delivered, threw)
    {
      var out, fired, failed := CallDecode(cumulation);
      ResetCumulation();
      delivered := if failed then fired else fired + out;
      threw := failed;
    }

    /** One inbound message: the frames passed on, and whether the call ends in a DecoderException. */
    method ChannelRead(data: UnpooledHeapCharBuf) returns (delivered: seq<seq<byte>>, threw: bool)
      requires Valid() && Cfg().Valid() && CastSafe() && data.Valid()
      requires cumulation != null ==>
        && cumulation.Valid() && cumulation != data && cumulation.memory != data.memory
        && CanTake(data.ReadableBytes())
      modifies this, data, data.memory, cumulation, if cumulation == null then {} else {cumulation.memory}
      ensures Valid() && Cfg() == old(Cfg()) && (cumulation != null ==> cumulation.Valid() && Pending() != [])
      ensures cumulation in {null, old(cumulation), data} || fresh(cumulation)
      ensures cumulation != null ==>
        || fresh(cumulation.memory) || (cumulation == data && cumulation.memory == old(data.memory))
        || (cumulation == old(cumulation) && cumulation.memory == old(cumulation.memory))
      ensures cumulation != null ==>
        cumulation.writerIndex <= old(if cumulation == null then 0 else cumulation.writerIndex) + old(data.writerIndex)
      ensures var o := Run(old(Cfg()), old(CurrentMode()), old(Pending()) + old(data.Readable()));
        Passes(o, CurrentMode(), Pending(), delivered, threw)
    {
      Receive(data);
      delivered, threw := Process();
    }

    // ----- A connection -----

    /** None of the messages is the cumulation, which is not empty, and all of them are short enough to cumulate. */
    ghost predicate Separate(messages: seq<UnpooledHeapCharBuf>)
      reads this, cumulation, messages
    {
      && Apart(messages)
      && (cumulation != null ==>
        && cumulation.Valid() && cumulation.ReadableBytes() > 0
        && cumulation !in messages && cumulation.memory !in Memories(messages))
      && (if cumulation == null then 0 else cumulation.writerIndex) + Written(messages) <= TWO_30
    }

    /** One channelRead for each message, the exceptions caught by the pipeline: the object refines Feed. */
    method ReadAll(messages: seq<UnpooledHeapCharBuf>) returns (delivered: seq<seq<byte>>)
      requires Valid() && Cfg().Valid() && Separate(messages)
      requires CountsFit(Cfg(), CurrentMode(), Pending(), Contents(messages))
      modifies this, cumulation, if cumulation == null then {} else {cumulation.memory}
      modifies messages, Memories(messages)
      ensures Valid() && Cfg() == old(Cfg()) && (cumulation != null ==> cumulation.Valid())
      ensures var f := Feed(old(Cfg()), old(CurrentMode()), old(Pending()), old(Contents(messages)));
        delivered == f.delivered && CurrentMode() == f.mode && Pending() == f.pending
      decreases |messages|
    {
      if messages == [] {
        return [];
      }
      var passed := ReadFirst(messages);
      delivered := ReadAll(messages[1..]);
      delivered := passed + delivered;
    }

    method ReadFirst(messages: seq<UnpooledHeapCharBuf>) returns (delivered: seq<seq<byte>>)
      requires Valid() && Cfg().Valid() && CastSafe() && messages != [] && Separate(messages)
      modifies this, messages[0], messages[0].memory, cumulation, if cumulation == null then {} else {cumulation.memory}
      ensures Valid() && Cfg() == old(Cfg()) && Separate(messages[1..])
      ensures Contents(messages[1..]) == old(Contents(messages))[1..]
      ensures Memories(messages[1..]) == old(Memories(messages[1..]))
      ensures cumulation in {null, old(cumulation), messages[0]} || fresh(cumulation)
      ensures cumulation != null ==>
        || fresh(cumulation.memory) || cumulation.memory == old(messages[0].memory)
        || (old(cumulation) != null && cumulation.memory == old(cumulation.memory))
      ensures var o := Run(old(Cfg()), old(CurrentMode()), old(Pending()) + old(Contents(messages))[0]);
        delivered == Delivered(o) && CurrentMode() == o.mode && Pending() == o.rest
    {
      var rest := messages[1..];
      WrittenNat(rest);
      ApartRest(messages);
      var threw;
      delivered, threw := ChannelRead(messages[0]);
      Kept(rest);
    }

    /** The end-to-end statement for the object: a new decoder that reads a stream without exceptions passes on
        exactly its frames, in order, and keeps exactly its unfinished end. */
    method ReadStream(messages: seq<UnpooledHeapCharBuf>) returns (delivered: seq<seq<byte>>)
      requires Valid() && Cfg().Valid() && !singleDecode
      requires CurrentMode() == Idle && cumulation == null && Separate(messages)
      requires StreamFits(Cfg(), Concat(Contents(messages)))
      modifies this, messages, Memories(messages)
      ensures Valid() && (cumulation != null ==> cumulation.Valid())
      ensures var z := Run(old(Cfg()), Idle, old(Concat(Contents(messages))));
        && CurrentMode() == z.mode && Pending() == z.rest
        && (!Failed(z.events) ==> delivered == Frames(z.events))
    {
      DeliveryTheorem(Cfg(), Contents(messages));
      delivered := ReadAll(messages);
    }
  }

  /** The messages are buffers of their own. */
  ghost predicate Apart(messages: seq<UnpooledHeapCharBuf>)
    reads messages
  {
    && (forall i :: 0 <= i < |messages| ==> messages[i].Valid())
    && (forall i, j :: 0 <= i < j < |messages| ==>
      messages[i] != messages[j] && messages[i].memory != messages[j].memory)
  }

  lemma ApartRest(messages: seq<UnpooledHeapCharBuf>)
    requires messages != [] && Apart(messages)
    ensures Apart(messages[1..])
    ensures messages[0] !in messages[1..] && messages[0].memory !in Memories(messages[1..])
    ensures Memories(messages) == {messages[0].memory} + Memories(messages[1..])
  {
    assert messages == [messages[0]] + messages[1..];
  }

  /** Buffers that are left alone keep what they hold. */
  twostate lemma {:induction false} Kept(messages: seq<UnpooledHeapCharBuf>)
    requires old(Apart(messages)) && forall m :: m in messages ==> unchanged(m) && unchanged(m.memory)
    ensures Apart(messages) && Written(messages) == old(Written(messages))
    ensures Contents(messages) == old(Contents(messages)) && Memories(messages) == old(Memories(messages))
  {
    KeptApart(messages);
    if messages != [] {
      ApartRest(messages);
      assert messages[0].Readable() == old(messages[0].Readable());
      assert forall m :: m in messages[1..] ==> m in messages;
      Kept(messages[1..]);
      assert messages[0].memory == old(messages[0].memory);
    }
  }

  twostate lemma KeptApart(messages: seq<UnpooledHeapCharBuf>)
    requires old(Apart(messages)) && forall m :: m in messages ==> unchanged(m)
    ensures Apart(messages)
  {
    assert forall i :: 0 <= i < |messages| ==> messages[i] in messages && old(messages[i].Valid());
    assert forall i :: 0 <= i < |messages| ==> messages[i].memory == old(messages[i].memory);
  }

  lemma {:induction false} WrittenNat(messages: seq<UnpooledHeapCharBuf>)
    requires forall i :: 0 <= i < |messages| ==> messages[i].Valid()
    ensures Written(messages) >= 0
  {
    if messages != [] {
      WrittenNat(messages[1..]);
    }
  }

  /** How many bytes have been written to the buffers. */
  ghost function Written(messages: seq<UnpooledHeapCharBuf>): int
    reads messages
  {
    if messages == [] then 0 else messages[0].writerIndex + Written(messages[1..])
  }

  ghost function Memories(messages: seq<UnpooledHeapCharBuf>): set<array<byte>>
    reads messages
  {
    set m | m in messages :: m.memory
  }

  /** The readable bytes of each buffer. */
  ghost function Contents(messages: seq<UnpooledHeapCharBuf>): (chunks: seq<seq<byte>>)
    requires forall i :: 0 <= i < |messages| ==> messages[i].Valid()
    reads messages, Memories(messages)
    ensures |chunks| == |messages|
  {
    if messages == [] then [] else [messages[0].Readable()] + Contents(messages[1..])
  }

  lemma HeaderRead(cfg: Config, mode: Mode, s: seq<byte>, field: int) returns (step: Step)
    requires cfg.Valid() && mode.Valid() && !mode.discarding && |s| >= cfg.EndOffset() && field == FieldValue(cfg, s)
    ensures step == FrameStream.DecodeHeader(cfg, mode, s)
    ensures step == HeaderStep(cfg, s, field, ToInt64(field + (cfg.lengthAdjustment + cfg.EndOffset())))
  {
    step := FrameStream.DecodeHeader(cfg, mode, s);
  }

  /** A channelRead has the effect of the run o. */
  ghost predicate Passes(o: Outcome, mode: Mode, pending: seq<byte>, delivered: seq<seq<byte>>, threw: bool) {
    delivered == Delivered(o) && threw == Failed(o.events) && mode == o.mode && pending == o.rest
  }

  /** The state of the decode loop against the run it performs: o from the start, rest from here. */
  ghost predicate Progress(o: Outcome, rest: Outcome, s: seq<byte>, fired: seq<seq<byte>>, out: seq<seq<byte>>,
    threw: bool)
  {
    && o.mode == rest.mode && o.rest == rest.rest && (Failed(o.events) <==> threw || Failed(rest.events))
    && if s == [] then o.fired == fired && o.held == out
       else o.fired == fired + out + rest.fired && o.held == rest.held
  }

  ghost predicate InProgress(o: Outcome, cfg: Config, mode: Mode, s: seq<byte>, fired: seq<seq<byte>>,
    out: seq<seq<byte>>, threw: bool)
  {
    cfg.Valid() && mode.Valid() && Progress(o, Run(cfg, mode, s), s, fired, out, threw)
  }

  lemma StartProgress(cfg: Config, mode: Mode, s: seq<byte>)
    requires cfg.Valid() && mode.Valid()
    ensures InProgress(Run(cfg, mode, s), cfg, mode, s, [], [], false)
  {
    var o := Run(cfg, mode, s);
    assert [] + [] + o.fired == o.fired;
  }

  lemma FlushProgress(o: Outcome, cfg: Config, mode: Mode, s: seq<byte>, fired: seq<seq<byte>>, out: seq<seq<byte>>,
      threw: bool)
    requires s != [] && InProgress(o, cfg, mode, s, fired, out, threw)
    ensures InProgress(o, cfg, mode, s, fired + out, [], threw)
    ensures out == [] ==> fired + out == fired
  {
    assert fired + out + [] == fired + out;
  }

  lemma EndProgress(o: Outcome, cfg: Config, mode: Mode, s: seq<byte>, fired: seq<seq<byte>>, out: seq<seq<byte>>,
      threw: bool)
    requires s == [] && InProgress(o, cfg, mode, s, fired, out, threw)
    ensures Done(o, mode, s, fired, out, threw)
  {
    FailedOne(Silent);
  }

  /** The loop has ended with the result of the run. */
  ghost predicate Done(o: Outcome, mode: Mode, s: seq<byte>, fired: seq<seq<byte>>, out: seq<seq<byte>>, threw: bool) {
    o.fired == fired && o.held == out && o.mode == mode && o.rest == s && (Failed(o.events) <==> threw)
  }

  function Passed(event: Event): seq<seq<byte>> {
    if event.Frame? then [event.bytes] else []
  }

  /** How the run r of s begins with the step, and goes on as after. */
  predicate Unfolds(cfg: Config, mode: Mode, s: seq<byte>, step: Step, rest: seq<byte>, r: Outcome, after: Outcome) {
    && (rest == [] ==> after == Outcome([], [], [], step.mode, []))
    && if step.consumed == 0 then r == Outcome([], [], [], mode, s)
       else if step.event.Frame? && (rest == [] || cfg.singleDecode) then
         r == Outcome([step.event], [], [step.event.bytes], step.mode, rest)
       else r == after.(events := Emitted(step.event) + after.events, fired := Passed(step.event) + after.fired)
  }

  lemma RunUnfolds(cfg: Config, mode: Mode, s: seq<byte>, step: Step)
    requires cfg.Valid() && mode.Valid() && s != [] && step == FrameStream.Decode(cfg, mode, s)
    ensures Unfolds(cfg, mode, s, step, s[step.consumed..], Run(cfg, mode, s), Run(cfg, step.mode, s[step.consumed..]))
  {
    var rest, r := s[step.consumed..], Run(cfg, mode, s);
    var after := Run(cfg, step.mode, rest);
    if step.consumed == 0 {
      assert r == Outcome([], [], [], mode, s);
    } else if step.event.Frame? && (rest == [] || cfg.singleDecode) {
      assert r == Outcome([step.event], [], [step.event.bytes], step.mode, rest);
    } else {
      assert r == after.(events := Emitted(step.event) + after.events, fired := Passed(step.event) + after.fired);
    }
  }

  lemma DiscardReadsAll(cfg: Config, mode: Mode, s: seq<byte>, step: Step)
    requires cfg.Valid() && mode.Valid() && s != [] && step == FrameStream.Decode(cfg, mode, s)
    ensures step.mode.discarding ==> step.consumed == |s|
    ensures step.consumed == 0 ==> step.event == Silent
  {
  }

  /** What one round of the loop does to Progress. */
  lemma ProgressStep(cfg: Config, mode: Mode, s: seq<byte>, step: Step, o: Outcome,
      fired: seq<seq<byte>>, out: seq<seq<byte>>, threw: bool)
    requires cfg.Valid() && mode.Valid() && s != [] && step == FrameStream.Decode(cfg, mode, s)
    requires Progress(o, Run(cfg, mode, s), s, fired, out, threw)
    ensures step.mode.discarding ==> step.consumed == |s|
    ensures step.consumed == 0 ==> step.event == Silent && Done(o, mode, s, fired + out, [], threw)
    ensures step.consumed > 0 && step.event.Frame? && cfg.singleDecode ==>
      Done(o, step.mode, s[step.consumed..], fired + out, Passed(step.event), threw)
    ensures step.consumed > 0 && !(step.event.Frame? && cfg.singleDecode) ==>
      var rest := s[step.consumed..];
      Progress(o, Run(cfg, step.mode, rest), rest, fired + out, Passed(step.event), threw || step.event.Fail?)
  {
    DiscardReadsAll(cfg, mode, s, step);
    RunUnfolds(cfg, mode, s, step);
    var rest := s[step.consumed..];
    ProgressOn(cfg, mode, s, step, rest, o, Run(cfg, mode, s), Run(cfg, step.mode, rest), fired, out, threw);
  }

  lemma ProgressOn(cfg: Config, mode: Mode, s: seq<byte>, step: Step, rest: seq<byte>, o: Outcome, r: Outcome,
      after: Outcome, fired: seq<seq<byte>>, out: seq<seq<byte>>, threw: bool)
    requires s != [] && Unfolds(cfg, mode, s, step, rest, r, after) && Progress(o, r, s, fired, out, threw)
    ensures step.consumed == 0 ==> Done(o, mode, s, fired + out, [], threw)
    ensures step.consumed > 0 && step.event.Frame? && cfg.singleDecode ==>
      Done(o, step.mode, rest, fired + out, Passed(step.event), threw)
    ensures step.consumed > 0 && !(step.event.Frame? && cfg.singleDecode) ==>
      Progress(o, after, rest, fired + out, Passed(step.event), threw || step.event.Fail?)
  {
    if step.consumed == 0 {
      NothingDecoded(o, mode, s, fired, out, threw);
    } else if step.event.Frame? && (rest == [] || cfg.singleDecode) {
      LastFrame(o, step.event, step.mode, rest, s, fired, out, threw);
    } else {
      Joined(step.event, o, r, after, rest, fired + out, threw);
    }
  }

  lemma NothingDecoded(o: Outcome, mode: Mode, s: seq<byte>, fired: seq<seq<byte>>, out: seq<seq<byte>>, threw: bool)
    requires s != [] && Progress(o, Outcome([], [], [], mode, s), s, fired, out, threw)
    ensures Done(o, mode, s, fired + out, [], threw)
  {
    assert fired + out + [] == fired + out;
  }

  lemma LastFrame(o: Outcome, event: Event, mode: Mode, rest: seq<byte>, s: seq<byte>, fired: seq<seq<byte>>,
      out: seq<seq<byte>>, threw: bool)
    requires s != [] && event.Frame?
    requires Progress(o, Outcome([event], [], [event.bytes], mode, rest), s, fired, out, threw)
    ensures Done(o, mode, rest, fired + out, [event.bytes], threw)
    ensures rest == [] ==> Progress(o, Outcome([], [], [], mode, []), [], fired + out, [event.bytes], threw)
  {
    FailedOne(event);
    assert fired + out + [] == fired + out;
  }

  lemma Joined(event: Event, o: Outcome, r: Outcome, after: Outcome, rest: seq<byte>, fired: seq<seq<byte>>,
      threw: bool)
    requires r == after.(events := Emitted(event) + after.events, fired := Passed(event) + after.fired)
    requires o.mode == r.mode && o.rest == r.rest && (Failed(o.events) <==> threw || Failed(r.events))
    requires o.fired == fired + r.fired && o.held == r.held
    requires rest == [] ==> after.fired == [] && after.held == [] && !event.Frame?
    ensures Progress(o, after, rest, fired, Passed(event), threw || event.Fail?)
  {
    FailedConcat(Emitted(event), after.events);
    FailedOne(event);
    Associative(fired, Passed(event), after.fired);
    assert fired + [] == fired;
  }

  lemma FailedOne(event: Event)
    ensures Failed([event]) <==> event.Fail?
    ensures !Failed([])
  {
    assert [event][0] == event;
  }

  /** A field of the storage at an absolute index is the field of the readable bytes at the relative one. */
  lemma SameField(memory: seq<byte>, readerIndex: nat, writerIndex: nat, offset: nat, at: nat)
    requires readerIndex <= writerIndex <= |memory| && offset == readerIndex + at
    ensures var s := memory[readerIndex..writerIndex];
      && (at + 1 <= |s| ==> Codec.GetChar(memory, offset) == Codec.GetChar(s, at))
      && (at + 2 <= |s| ==> Codec.GetUShort(memory, offset) == Codec.GetUShort(s, at))
      && (at + 4 <= |s| ==> Codec.GetUInt(memory, offset) == Codec.GetUInt(s, at))
      && (at + 8 <= |s| ==> Codec.GetLong(memory, offset) == Codec.GetLong(s, at))
  {
  }
}
