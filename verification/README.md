# Verification of the communication library's core

A Dafny model of the stateful core of the library and of its build script, with proofs. Objects that the code updates
in place are classes whose methods are proved against functions on values; the theorems are about those functions, for
every input, every run and every interleaving.

| file | what it models |
|---|---|
| FrameStream.dfy, FrameGrammar.dfy | the length-field frame decoder on byte strings: one decode call, the decode loop, chunked delivery; units of a stream, resynchronisation, round trips, lost frames |
| DiscardOverflow.dfy | the decode loop for counts of bytes to discard that an int cannot hold, and exactly when it ends |
| LengthFieldBasedFrameDecoder.dfy | the decoder object and the cumulating base class over real buffers, refining FrameStream call by call and over a whole connection |
| CompileScheduler.dfy, FairScheduling.dfy, Components.dfy | the dependency-driven parallel compile scheduler as a state machine over atomic steps of its threads, its endless fair schedules, and the graph queries it uses |
| BoostAsyncWriter.dfy | the asynchronous writer as a state machine of writes, completions and shutdown, and the object that performs its steps |
| CharBuf.dfy, HeapCharBufUtil.dfy, CommUtil.dfy | the growable byte buffer as a byte queue, its big-endian fields, capacity growth and the or-shift rounding |
| BuddyTree.dfy, PoolChunk.dfy | the buddy allocator of one chunk: its tree of runs, allocation, release, usage |
| PoolChunkList.dfy | the six doubly linked usage bands of an arena and the migration of chunks between them |
| ObjectQueue.dfy, MemoryRegionCache.dfy | the linked queue as a sequence, and the bounded region cache over it |
| AdaptiveRecvByteBufAllocator.dfy | the size table, its search, and the feedback controller of receive sizes |
| ChannelPipeline.dfy | the handler chain: linking, names, lookup, event traversal |
| Words.dfy, Sequences.dfy | machine integers, powers of two, lists of objects |

## Conventions

- Integers are unbounded; where the program's 32-bit or 64-bit arithmetic can wrap, truncate or change sign the model
  says so (ToInt32, ToInt64). Signed overflow is modelled as two's-complement wrap-around. `char` is signed, as on the
  x86-64 targets of the build.
- An exception is a result value; an operation that throws leaves exactly the state its contract names.
- `|` of disjoint bit fields is addition, and a sign test of an `|` is "some operand is negative".
- `memcpy` within one buffer is an ascending byte loop.
- A handler on a strand, and a section under a lock, is one atomic step.

## What turned out not to hold

Each of these is proved with the exact condition under which the code does what is expected of it.

- bytesToDiscard_ is cast to int on every use: discarding is exact if and only if the count fits an int
  (DiscardExactIff), and a four-byte length field can announce more (WideFieldOverflows). Every theorem about streams
  therefore asks that no header announces more than an int can count (StreamFits), which keeps the count within int
  however the stream is cut (HeadersFitCounts).
- callDecode does not always return (CallDecodeEndsIff). A lengthFieldLength other than 1, 2, 4 or 8 is accepted by
  init and makes it loop for ever on the first complete header; and a cast count that moves the reader index back until
  the length field lies in front of the buffer does so for a supported width, which five bytes are enough for
  (FiveBytesHang).
- A one-byte length field is read as a signed char, so lengths from 128 on are rejected (OneByteFieldIff).
- When callDecode rethrows, a frame still waiting in `out` is lost: exactly when the bytes end with a frame and
  something before it was reported by an exception (LostFrameIff, FrameLost).
- The growth loop never ends for capacity 0 or a request above 2^30 (GrowthLoopEndsIff).
- checkReadable lets a negative length, or one that overflows, pass (ReadableGuardExact); the bounds check of getChars
  catches it (ReadChars), skipBytes does not (SkipBytes).
- The writer index may be set behind the storage (SetWriterIndex).
- The scheduler releases the dependents of a component before it looks at the exit code: a dependent can be built on a
  failed dependency exactly when there are two threads and some component to be compiled has a dependency
  (FailedDependencyIff).
- generateName finds a cached name but does not read it: a generated name begins with the handler's type exactly when
  the type was not yet in the cache (GeneratedName, UnnamedHandlers).
- Removing the tail's name, or its handler, from a pipeline dereferences null (Remove, RemoveHandler).
- The first receive size can lie one table entry outside the configured bounds: exactly when the search rounds the gap
  in which initial lies away from the bounds (FirstGuessInBoundsIff, FirstGuessAboveMaximum).
- A read of 16 bytes that fills the smallest receive buffer counts as small, so that such reads never make it grow
  (FullReadDeclinesIff, SmallestNeverGrows).
- A request for a whole chunk is never served from the first list, even when it holds an empty chunk
  (RefusalLosesIff).

## Model

| member | source | states |
|---|---|---|
| FrameStream.Fragmentation | src/common/net/handler/codec/ByteToMessageDecoder.cpp:90-125 | For any bytes a and b whose headers announce no more than an int can count: running the decode loop over a and then over its leftover with b appended gives the events, the mode and the unread bytes of one run over a + b, in and out of discard mode, and the outstanding count stays within int |
| FrameStream.ChunkingInvariance | src/common/net/handler/codec/ByteToMessageDecoder.cpp:41-67 | However such a stream is cut into chunks, the successive calls produce together the events, mode and unread bytes of a single run over the whole stream, and no call meets a count that the cast changes |
| FrameStream.DeliveryTheorem | src/common/net/handler/codec/ByteToMessageDecoder.cpp:41-125 | End to end on a new connection: under any chunking of such a stream the decoded events are those of the one-shot parser, the unread bytes are its rest, and without exceptions exactly its frames are passed on, in order |
| FrameStream.HeadersFitCounts | src/common/net/handler/codec/LengthFieldBasedFrameDecoder.hpp:144-152 | When no header of the stream announces more than an int can count, the outstanding count survives the cast before every call, however the stream is cut |
| FrameStream.DeliveryAccount | src/common/net/handler/codec/ByteToMessageDecoder.cpp:41-67 | Over any chunks every decoded frame is passed on or lost with an exception, nothing is duplicated, and nothing is lost exactly when everything was passed on in order |
| FrameStream.RunAccountsForFrames | src/common/net/handler/codec/ByteToMessageDecoder.cpp:90-125 | The frames of a run are those fired inside the loop followed by those left in `out` |
| FrameStream.ProgressIffSupported | src/common/net/handler/codec/LengthFieldBasedFrameDecoder.hpp:115-137 | With a count within int, idle or discarding, every exception consumes input if and only if the field width is 1, 2, 4 or 8 |
| FrameStream.Decode | src/common/net/handler/codec/LengthFieldBasedFrameDecoder.hpp:39-83 | A decode call that consumes nothing of a non-empty input yields nothing and leaves the mode unchanged |
| FrameStream.FieldIsBytes | src/common/net/handler/codec/LengthFieldBasedFrameDecoder.hpp:48-49 | For every field offset and width the field value is the big-endian number in exactly the bytes from the offset on, read as signed at widths 1 and 8 |
| FrameStream.FrameLengthExact | src/common/net/handler/codec/LengthFieldBasedFrameDecoder.hpp:55-58 | The announced length is the field plus the adjustment plus the end of the field; only an eight-byte field can make that overflow a long, and such a header is rejected |
| FrameStream.DiscardSkips | src/common/net/handler/codec/LengthFieldBasedFrameDecoder.hpp:144-152 | A run that starts in discard mode skips the smaller of the cast count and the available bytes: if that completes the discard it is the run of what follows, with the late exception in front unless failFast; if not, nothing is left unread and the rest of the count is outstanding |
| FrameStream.SingleDecodeAtMostOne | src/common/net/handler/codec/ByteToMessageDecoder.cpp:115-117 | With singleDecode a call passes on at most one frame |
| FrameGrammar.Decompose | src/common/net/handler/codec/LengthFieldBasedFrameDecoder.hpp:39-113 | Byte conservation: every byte string is a sequence of units (a frame with its stripped bytes, a discarded frame, a rejected header) and an unfinished tail |
| FrameGrammar.UnitStep | src/common/net/handler/codec/LengthFieldBasedFrameDecoder.hpp:39-113 | One decode call on a stream that begins with a unit consumes exactly that unit and reports its event, whatever follows |
| FrameGrammar.RunUnits | src/common/net/handler/codec/ByteToMessageDecoder.cpp:90-125 | A stream of units and a tail decodes to the events of the units in order, followed by what the tail alone does |
| FrameGrammar.TailRun | src/common/net/handler/codec/LengthFieldBasedFrameDecoder.hpp:44-69 | An unfinished frame stays unread; an oversized one is skipped with the exact number of its missing bytes outstanding |
| FrameGrammar.LostFrameIff | src/common/net/handler/codec/ByteToMessageDecoder.cpp:90-125 | For the bytes that complete a discard, then units and a tail: the call loses a decoded frame if and only if the bytes end with it and a unit before it, or the discard, was reported by an exception |
| FrameGrammar.FrameLost | src/common/net/handler/codec/ByteToMessageDecoder.cpp:56-66 | Eight bytes that lose a frame: a header that the adjustment makes negative, then a whole frame |
| FrameGrammar.Resynchronises | src/common/net/handler/codec/LengthFieldBasedFrameDecoder.hpp:94-169 | Under any chunking an oversized frame with no more missing bytes than an int can count costs exactly its own bytes and one exception, and the next header is read at the very next byte |
| FrameGrammar.RoundTrip | src/tools/sockettest/server.cpp:70-76 | Any list of messages, each any bytes up to the length field, the field and a payload, written under any offset, width, adjustment and strip and cut anywhere, comes out as the same list without the stripped bytes, and as the payloads themselves when everything up to the end of the field is stripped |
| FrameGrammar.MessageIsUnit | src/common/net/handler/codec/LengthFieldBasedFrameDecoder.hpp:48-82 | A message within the frame limit, with any bytes in front of its length field and any adjustment, is one unit whose frame is the message without the stripped bytes |
| FrameGrammar.MessageOutcome | src/common/net/handler/codec/LengthFieldBasedFrameDecoder.hpp:48-113 | One decode call on any written message: a frame exactly when its length is within the limit and not below the strip, otherwise the exception for the one or the other, and always exactly its bytes are consumed |
| FrameGrammar.MessagePart | src/common/net/handler/codec/LengthFieldBasedFrameDecoder.hpp:44-108 | On any first part of it: a message within the limit waits; a longer one is discarded once its header is there, reported at once exactly with failFast, with exactly its missing bytes outstanding |
| FrameGrammar.OneByteFieldIff | src/common/net/handler/codec/LengthFieldBasedFrameDecoder.hpp:118-120 | A one-byte length field is read as a signed char, at any offset and with any adjustment: of all lengths that a byte can hold exactly those below 128 come back as the message |
| FrameGrammar.DiscardExactIff | src/common/net/handler/codec/LengthFieldBasedFrameDecoder.hpp:144-152 | The cast of bytesToDiscard_ to int keeps discarding exact on every sequence of reads if and only if the count fits an int |
| FrameGrammar.DiscardStaysInt | src/common/net/handler/codec/LengthFieldBasedFrameDecoder.hpp:94-106 | When no header announces more than an int holds the count never leaves the int range |
| FrameGrammar.NarrowFieldsFit | src/common/net/handler/codec/LengthFieldBasedFrameDecoder.hpp:117-123 | One- and two-byte length fields cannot announce that much |
| FrameGrammar.WideFieldOverflows | src/common/net/handler/codec/LengthFieldBasedFrameDecoder.hpp:127-129 | A four-byte field can: a concrete header that leaves a count the cast turns negative |
| DiscardOverflow.MotionIsDecode | src/common/net/handler/codec/LengthFieldBasedFrameDecoder.hpp:39-83 | The exact motion of the reader index, with every cast and overflow, is that of FrameStream.Decode as long as the count fits an int |
| DiscardOverflow.CallDecodeEndsIff | src/common/net/handler/codec/ByteToMessageDecoder.cpp:90-125 | For every accepted configuration, every count and every buffer callDecode returns if and only if it is not stuck: a complete header of an unsupported width, or a count that the cast makes so negative that the length field lies in front of the buffer while the bytes behind it look sufficient |
| DiscardOverflow.StuckNeverEnds | src/common/net/handler/codec/ByteToMessageDecoder.cpp:90-125 | A stuck call does not end within any number of rounds |
| DiscardOverflow.FittingCountEnds | src/common/net/handler/codec/ByteToMessageDecoder.cpp:90-125 | With a supported width and a count within int callDecode always returns |
| DiscardOverflow.FiveBytesHang | src/common/net/handler/codec/ByteToMessageDecoder.cpp:90-125 | The header 0x80000004 and one more byte: the second call never returns |
| LengthFieldBasedFrameDecoder.FrameDecoder.Create | src/common/net/handler/codec/LengthFieldBasedFrameDecoder.hpp:179-198 | In 32-bit arithmetic init accepts exactly the positive maximum, the non-negative offset and strip, and the offset that fits before maximum minus width, with that difference within int; it starts idle, and is well-formed exactly when the adjustment added to the header end fits an int |
| LengthFieldBasedFrameDecoder.FrameDecoder.FailIfNecessary | src/common/net/handler/codec/LengthFieldBasedFrameDecoder.hpp:154-169 | Resets the discard state exactly when nothing is left to discard, and throws in the four cases of failFast and first detection |
| LengthFieldBasedFrameDecoder.FrameDecoder.ExceededFrameLength | src/common/net/handler/codec/LengthFieldBasedFrameDecoder.hpp:94-108 | Skips the whole oversized frame when it is present, else everything readable with exactly the missing bytes outstanding |
| LengthFieldBasedFrameDecoder.FrameDecoder.DiscardingTooLongFrame | src/common/net/handler/codec/LengthFieldBasedFrameDecoder.hpp:144-152 | Moves the reader index by the smaller of the cast count and the readable bytes, backwards when the cast is negative, and leaves discard mode exactly when the count reaches zero; for a count within int it skips min(count, readable) bytes |
| LengthFieldBasedFrameDecoder.FrameDecoder.GetUnadjustedFrameLength | src/common/net/handler/codec/LengthFieldBasedFrameDecoder.hpp:115-137 | The value of the bytes at the field offset (FieldIsBytes), for the widths 1, 2, 4 and 8; the exception exactly for any other |
| LengthFieldBasedFrameDecoder.FrameDecoder.Decode | src/common/net/handler/codec/LengthFieldBasedFrameDecoder.hpp:39-83 | The object refines FrameStream.Decode: same event, same mode, same bytes consumed |
| LengthFieldBasedFrameDecoder.FrameDecoder.DecodeHeader | src/common/net/handler/codec/LengthFieldBasedFrameDecoder.hpp:44-83 | The same for decode from its second statement on |
| LengthFieldBasedFrameDecoder.FrameDecoder.DecodeLength | src/common/net/handler/codec/LengthFieldBasedFrameDecoder.hpp:51-83 | The same once the length field is read: a negative field and a length below the header cost the header and one exception |
| LengthFieldBasedFrameDecoder.FrameDecoder.DecodeFrame | src/common/net/handler/codec/LengthFieldBasedFrameDecoder.hpp:60-83 | The same for the adjusted length: oversized, incomplete, shorter than the strip, or a frame |
| LengthFieldBasedFrameDecoder.FrameDecoder.ExtractFrame | src/common/net/handler/codec/LengthFieldBasedFrameDecoder.hpp:74-80 | The frame is the readable bytes between the strip and the frame length, the buffer is retained once, and the reader index ends behind the frame |
| LengthFieldBasedFrameDecoder.FrameDecoder.DecodeRemovalReentryProtection | src/common/net/handler/codec/ByteToMessageDecoder.cpp:85-88 | One decode call advances the run that the loop performs, or ends it |
| LengthFieldBasedFrameDecoder.FrameDecoder.CallDecode | src/common/net/handler/codec/ByteToMessageDecoder.cpp:90-125 | The loop terminates and fires, holds, leaves unread and rethrows exactly what FrameStream.Run says |
| LengthFieldBasedFrameDecoder.FrameDecoder.DiscardSomeReadBytes | src/common/net/handler/codec/ByteToMessageDecoder.cpp:127-137 | Compaction keeps the undecoded bytes, and while a frame slice still shares the storage, or after the first message, it changes neither the storage nor an index |
| LengthFieldBasedFrameDecoder.FrameDecoder.ResetCumulation | src/common/net/handler/codec/ByteToMessageDecoder.cpp:69-83 | Exactly an exhausted cumulation is released once, so that a kept one has undecoded bytes, and those stay as they are; compaction comes at every fourth read that leaves something, and not otherwise |
| LengthFieldBasedFrameDecoder.FrameDecoder.Cumulate | src/common/net/handler/codec/ByteToMessageDecoder.cpp:13-32 | The cumulation, grown in place or, exactly beyond its maximum capacity, replaced and released, holds the old undecoded bytes followed by the new ones, whenever the total fits an int and the growth loop ends |
| LengthFieldBasedFrameDecoder.FrameDecoder.ChannelRead | src/common/net/handler/codec/ByteToMessageDecoder.cpp:41-67 | The object refines FrameStream: one call passes on, keeps and throws exactly what the run over the undecoded bytes and the chunk does |
| LengthFieldBasedFrameDecoder.FrameDecoder.ReadAll | src/common/net/handler/codec/ByteToMessageDecoder.cpp:41-67 | Successive calls on one object, one for each message, pass on exactly what FrameStream.Feed delivers and end in its mode with its unread bytes |
| LengthFieldBasedFrameDecoder.FrameDecoder.ReadStream | src/common/net/handler/codec/ByteToMessageDecoder.cpp:41-125 | A new decoder object that reads a stream without exceptions, in any pieces, passes on exactly its frames, in order, and keeps exactly its unfinished end |
| LengthFieldBasedFrameDecoder.ProgressStep | src/common/net/handler/codec/ByteToMessageDecoder.cpp:92-122 | What one round of the loop does to the frames fired and held and to the rest of the run |
| Components.ExclusionRule | parallelCompile.py:26-30 | A component stays excluded exactly when no component depends on it |
| Components.GetComponentDepends | parallelCompile.py:49-57 | The recursion returns exactly the components to which a chain of dependencies leads from one of the given components |
| Components.ToBeCompiled | parallelCompile.py:131-137 | Exactly the components that are not excluded and, when some are requested, are requested or reached from one by a chain of dependencies; the set is closed under dependencies |
| CompileScheduler.Scheduler.AddToPendingQueue | parallelCompile.py:163-171 | Queues exactly the given components that have not started, each once, high priority first, and marks exactly them Started |
| CompileScheduler.Scheduler.SolvedComponents | parallelCompile.py:59-64 | Lists exactly the to-be-compiled components whose dependencies are all finished |
| CompileScheduler.Scheduler.IsComponentDependsSolved | parallelCompile.py:80-84 | True exactly when every dependency is finished |
| CompileScheduler.Scheduler.Start | parallelCompile.py:146-158 | The object reaches an initial state of the state machine |
| CompileScheduler.Scheduler.FinishCompile | parallelCompile.py:216-227 | The object performs the finish step of the state machine |
| CompileScheduler.Scheduler.IsAllComponentsFinished | parallelCompile.py:229-233 | True exactly when every component is Finished |
| CompileScheduler.StepInv | parallelCompile.py:193-227 | Every atomic step of every worker keeps the invariant, among it: what could start has started, and what has started has its dependencies finished |
| CompileScheduler.SchedulerSafety | parallelCompile.py:163-227 | Over every interleaving a started or finished component has all dependencies finished, no component is queued twice, and no component is built by two threads |
| CompileScheduler.SomeStarted | parallelCompile.py:216-227 | While a component is unfinished some component below it is Started |
| CompileScheduler.NoDeadlock | parallelCompile.py:193-233 | While something is unfinished and no build has failed, a component is Started and some thread can take or finish one |
| CompileScheduler.SchedulerCompletes | parallelCompile.py:173-227 | A run that can go no further without a failed build has finished everything, after exactly one build for each component |
| CompileScheduler.RunCounts | parallelCompile.py:193-218 | Queued components are fetched or pending, fetched ones are finished or being built |
| CompileScheduler.FirstInFirstOut | parallelCompile.py:163-204 | Over every interleaving the components are taken in the order in which they were queued, each once |
| CompileScheduler.FailedDependencyIff | parallelCompile.py:206-213 | For every graph and number of threads: some run builds a component on a dependency whose build failed if and only if there are two threads and a component with a dependency is to be compiled |
| CompileScheduler.SingleThreadStops | parallelCompile.py:206-213 | With at most one thread that never happens, in any run over any graph |
| FairScheduling.FairExecutionEnds | parallelCompile.py:173-227 | Under every endless fair schedule, repeated checks and timeouts included, the program reaches an end and stays there: everything built and every thread returned, or os._exit, which only a failed build brings about |
| FairScheduling.FairExecutionExists | parallelCompile.py:173-227 | For every graph and every positive number of threads there is such a schedule |
| BoostAsyncWriter.Writer.WriteImpl | src/common/net/BoostAsyncWriter.hpp:57-67 | The object performs the write step of the state machine; after the shutdown it answers no at once and keeps nothing, before it nothing is answered |
| BoostAsyncWriter.Writer.HandleWrite | src/common/net/BoostAsyncWriter.hpp:76-97 | The object performs the completion step of the state machine, partial completions included |
| BoostAsyncWriter.Writer.HandleShutdown | src/common/net/BoostAsyncWriter.hpp:52-55 | The object performs the shutdown step and calls the shutdown callback once |
| BoostAsyncWriter.Writer.ClearQueue | src/common/net/BoostAsyncWriter.hpp:99-104 | Every queued message is answered negatively once, in order, and the queue is empty |
| BoostAsyncWriter.StepInv | src/common/net/BoostAsyncWriter.hpp:52-104 | Every handler keeps the invariant |
| BoostAsyncWriter.WriterRuns | src/common/net/BoostAsyncWriter.hpp:52-104 | In every reachable state a write is outstanding exactly when the queue is non-empty, every request is answered once or still queued, in the order of acceptance, and all are answered exactly once when the queue is empty |
| BoostAsyncWriter.ToldTheTruth | src/common/net/BoostAsyncWriter.hpp:52-104 | Over every run: the accepted messages are the requests before the first shutdown, a request is refused exactly when it comes later and is then told no, and whoever is told yes made an accepted request all of whose bytes are on the wire, behind what was sent of the requests before it |
| BoostAsyncWriter.WirePrefix | src/common/net/BoostAsyncWriter.hpp:57-97 | Without write errors the wire bytes are a prefix of the accepted messages concatenated in order, and all of them once the queue has drained without a shutdown; of the messages that have ended exactly a first part is told yes, and all of them without a shutdown |
| BoostAsyncWriter.ShutdownDrains | src/common/net/BoostAsyncWriter.hpp:76-104 | The completion that ends a message after the shutdown answers everything, empties the queue for good and lets no later byte reach the wire |
| CharBuf.ReadableGuardExact | src/common/buffer/AbstractCharBuf.cpp:389-393 | checkReadable admits exactly what is readable if and only if the length is non-negative and does not overflow |
| CharBuf.RangeGuardExact | src/common/buffer/AbstractCharBuf.cpp:365-370 | The sign test of checkRangeBounds rejects exactly the fields that leave the capacity, overflow included |
| CharBuf.CopyAscending | src/common/buffer/HeapCharBufUtil.hpp:107-109 | The copy loop moves the bytes as they were before the call, also between overlapping regions when the target starts first |
| CharBuf.UnpooledHeapCharBuf.DeepCopy | src/common/buffer/UnpooledHeapCharBuf.cpp:47-60 | The copy has the same indices and bytes in storage of its own |
| CharBuf.UnpooledHeapCharBuf.SetReaderIndex | src/common/buffer/AbstractCharBuf.cpp:13-16 | Accepts exactly the indices up to the writer index |
| CharBuf.UnpooledHeapCharBuf.SetWriterIndex | src/common/buffer/AbstractCharBuf.cpp:18-21 | Accepts exactly the indices from the reader index up to the maximum capacity, and so leaves a buffer that is no longer well-formed exactly when it accepts one behind the storage |
| CharBuf.UnpooledHeapCharBuf.SetCapacity | src/common/buffer/UnpooledHeapCharBuf.cpp:10-27 | Growing keeps every byte, shrinking cuts the indices to the new capacity and keeps the bytes before it |
| CharBuf.UnpooledHeapCharBuf.EnsureWritable | src/common/buffer/AbstractCharBuf.cpp:378-387 | Whenever the growth loop ends: fails exactly when the maximum capacity does not allow the request; otherwise makes room, keeps every byte and changes no index |
| CharBuf.UnpooledHeapCharBuf.WriteChars | src/common/buffer/AbstractCharBuf.cpp:32-36 | Appends the bytes to the readable ones or changes nothing |
| CharBuf.UnpooledHeapCharBuf.WriteSlice | src/common/buffer/AbstractCharBuf.cpp:48-52 | Appends a range of the storage of another buffer, or of the buffer itself; fails exactly when the maximum capacity or the bounds of that storage do not allow it, negative arguments included |
| CharBuf.UnpooledHeapCharBuf.WriteFrom | src/common/buffer/AbstractCharBuf.cpp:42-46 | Moves bytes from the front of one buffer to the end of the other, which may be the same one; a negative length fails |
| CharBuf.UnpooledHeapCharBuf.WriteShort | src/common/buffer/AbstractCharBuf.cpp:54-64 | Appends the big-endian bytes of the value |
| CharBuf.UnpooledHeapCharBuf.WriteInt | src/common/buffer/AbstractCharBuf.cpp:66-76 | Appends the big-endian bytes of the value |
| CharBuf.UnpooledHeapCharBuf.WriteLong | src/common/buffer/AbstractCharBuf.cpp:78-88 | Appends the big-endian bytes of the value |
| CharBuf.UnpooledHeapCharBuf.SkipBytes | src/common/buffer/AbstractCharBuf.cpp:298-301 | Drops a prefix of the readable bytes or fails exactly when there are fewer; a length that the guard wrongly lets through moves the reader index as 32-bit arithmetic says |
| CharBuf.UnpooledHeapCharBuf.ReadChars | src/common/buffer/AbstractCharBuf.cpp:172-176 | Returns and drops a prefix of the readable bytes, and fails exactly for a negative length or one beyond them, the overflow that the first guard misses included |
| CharBuf.UnpooledHeapCharBuf.ReadUInt | src/common/buffer/AbstractCharBuf.cpp:199-204 | Returns the number whose big-endian bytes are the four it drops |
| CharBuf.UnpooledHeapCharBuf.DiscardReadBytes | src/common/buffer/AbstractCharBuf.cpp:303-315 | Compaction in place keeps the readable bytes and moves them to the front |
| CharBuf.UnpooledHeapCharBuf.DiscardSomeReadBytes | src/common/buffer/AbstractCharBuf.cpp:317-335 | Keeps the readable bytes; moves them to the front exactly when nothing is readable or at least half the capacity has been read |
| HeapCharBufUtil.SetShort | src/common/buffer/HeapCharBufUtil.hpp:20-28 | Writes the two bytes of the value and touches no byte outside the field |
| HeapCharBufUtil.SetInt | src/common/buffer/HeapCharBufUtil.hpp:30-42 | Writes the four bytes of the value and touches no byte outside the field |
| HeapCharBufUtil.SetLong | src/common/buffer/HeapCharBufUtil.hpp:44-64 | Writes the eight bytes of the value and touches no byte outside the field |
| HeapCharBufUtil.GettersReadBytes | src/common/buffer/HeapCharBufUtil.hpp:66-100 | The getters read positional notation, the signed ones its two-complement reading |
| HeapCharBufUtil.ByteWeight | src/common/buffer/HeapCharBufUtil.hpp:20-64 | Big-endian order of what is written: byte i of n is the digit of weight 256^(n - 1 - i) |
| HeapCharBufUtil.LeadingByte | src/common/buffer/HeapCharBufUtil.hpp:66-100 | Big-endian order of what is read: the first byte weighs most |
| HeapCharBufUtil.GetAfterSet | src/common/buffer/HeapCharBufUtil.hpp:20-100 | A get after a set returns the value, at 16, 32 and 64 bits, signed and unsigned |
| HeapCharBufUtil.SetAfterGet | src/common/buffer/HeapCharBufUtil.hpp:20-100 | Setting what a get returned restores the whole memory |
| CommUtil.RoundUpPower2 | src/include/CommUtil.hpp:13-21 | The or-shift cascade yields the least power of two that reaches the argument, and the 2^31 constant for zero |
| CommUtil.CascadeFills | src/include/CommUtil.hpp:14-19 | On 32-bit numbers the cascade fills every bit below the top one |
| CommUtil.PowerAtLeastIsLeast | src/include/CommUtil.hpp:13-21 | The reference definition is a power of two and no smaller one reaches the argument |
| CommUtil.CalculateNewCapacity | src/common/buffer/AbstractCharBuf.cpp:395-402 | Fails exactly when the request exceeds the maximum, else returns the smaller of the maximum and the least power of two that covers capacity and request |
| CommUtil.GrownCapacityIsLeast | src/common/buffer/AbstractCharBuf.cpp:395-402 | No other power of two, capped by the maximum, that covers both is smaller |
| CommUtil.GrowthLoopEndsIff | src/common/buffer/AbstractCharBuf.cpp:399-400 | The doubling loop ends if and only if the capacity is positive and the request at most 2^30 |
| PoolChunkList.PoolChunkList.Add0 | src/common/buffer/PoolChunkList.cpp:80-93 | Pushes the chunk at the front of a well-formed doubly linked list and makes this list its owner |
| PoolChunkList.PoolChunkList.Remove | src/common/buffer/PoolChunkList.cpp:65-78 | Unlinks exactly the given chunk, at the head, inside or at the end |
| PoolChunkList.PoolChunkList.Add | src/common/buffer/PoolChunkList.cpp:45-52 | Ends, and puts the chunk into the first list from here on that its usage is not too high for; every chunk stays in its band |
| PoolChunkList.PoolChunkList.Move | src/common/buffer/PoolChunkList.cpp:54-63 | Ends, and puts the chunk into the first list from here down that its usage is not too low for; the assertion on the usage never fails |
| PoolChunkList.PoolChunkList.Move0 | src/common/buffer/PoolChunkList.cpp:95-103 | Refuses exactly an empty chunk; the assertion that it is empty never fails |
| PoolChunkList.PoolChunkList.FirstFit | src/common/buffer/PoolChunkList.cpp:22-31 | The chunk served is the first of the list with a run for the request, none exactly when no chunk has one, and no other chunk changes |
| PoolChunkList.PoolChunkList.Allocate | src/common/buffer/PoolChunkList.cpp:15-33 | A request above the capacity limit changes nothing; any other is served exactly when some chunk has a run for it, by the first such chunk, which moves up to the first list whose maximum exceeds its usage |
| PoolChunkList.PoolChunkList.Free | src/common/buffer/PoolChunkList.cpp:35-43 | Refuses exactly when the chunk is empty and the list is not the first one; the chunk has then left every list, otherwise it has moved down to the first list whose minimum its usage reaches |
| PoolChunkList.EmptyChunkServes | src/common/buffer/PoolChunkList.cpp:15-33 | An empty chunk is in the first list, and while there is one that list serves every request within its capacity limit |
| PoolChunkList.ExactlyOneList | src/common/buffer/PoolChunkList.cpp:15-103 | A live chunk is in exactly one list, knows it as its owner, and its usage is in that band |
| PoolChunkList.LinksInverse | src/common/buffer/PoolChunkList.cpp:65-93 | next and prev undo one another, and only the head has no predecessor |
| PoolChunkList.RefusalLosesIff | src/common/buffer/PoolChunkList.cpp:105-118 | For run sizes the capacity limit turns away a request that a chunk of the list could serve if and only if it is the first list and a request for a whole chunk |
| ObjectQueue.ObjectQueue.AddItem | src/include/ObjectQueue.hpp:161-171 | Appends one item; the checks on head, tail and size never fail |
| ObjectQueue.ObjectQueue.Add | src/include/ObjectQueue.hpp:111-123 | Appends the value and returns the new size |
| ObjectQueue.ObjectQueue.AddAll | src/include/ObjectQueue.hpp:125-143 | Appends all values in order |
| ObjectQueue.ObjectQueue.Take | src/include/ObjectQueue.hpp:40-66 | Returns and removes the oldest value, or the default exactly when the queue is empty |
| ObjectQueue.ObjectQueue.Drain | src/include/ObjectQueue.hpp:68-98 | Returns and removes the requested number of oldest values, all of them for a number that is not positive |
| ObjectQueue.ObjectQueue.Peek | src/include/ObjectQueue.hpp:100-110 | Returns the oldest value, or the default when the queue is empty |
| ObjectQueue.ObjectQueue.Clear | src/include/ObjectQueue.hpp:149-159 | Empties the queue; the final size check never fails |
| MemoryRegionCache.MemoryRegionCache.Add | src/common/buffer/PoolThreadCache.cpp:28-36 | Accepts exactly while fewer than size entries are queued |
| MemoryRegionCache.MemoryRegionCache.Allocate | src/common/buffer/PoolThreadCache.cpp:38-52 | Hands out the oldest entry and counts it, or nothing exactly when the cache is empty |
| MemoryRegionCache.MemoryRegionCache.FreeEntry | src/common/buffer/PoolThreadCache.cpp:74-79 | Takes the oldest entry and releases it |
| MemoryRegionCache.MemoryRegionCache.Free | src/common/buffer/PoolThreadCache.cpp:71-83 | Releases exactly min(queued, max) entries, oldest first |
| MemoryRegionCache.MemoryRegionCache.Trim | src/common/buffer/PoolThreadCache.cpp:58-66 | Releases exactly min(queued, max(0, size - allocations since the last trim)) entries and restarts the count |
| MemoryRegionCache.MemoryRegionCache.Conservation | src/common/buffer/PoolThreadCache.cpp:28-83 | Over any run the accepted entries are the allocated, the freed and the queued ones |
| MemoryRegionCache.EveryUseCounted | src/common/buffer/PoolThreadCache.cpp:38-83 | Every entry that left the queue was either allocated or freed |
| MemoryRegionCache.Log2 | src/common/buffer/PoolThreadCache.cpp:120-127 | Halving computes the floor of the logarithm |
| MemoryRegionCache.NormalCachesSize | src/common/buffer/PoolThreadCache.cpp:140-151 | A run of 2^k pages has a cache if and only if it is within the chunk size and the configured maximum, or is a single page |
| AdaptiveRecvByteBufAllocator.SizeTable.constructor | src/common/net/channel/AdaptiveRecvByteBufAllocator.cpp:13-21 | The two loops, the second ended by overflow, build the table of 53 sizes |
| AdaptiveRecvByteBufAllocator.TableSizes | src/common/net/channel/AdaptiveRecvByteBufAllocator.cpp:13-21 | The sizes are 16 to 496 in steps of 16, then 512 and its doubles up to 2^30 |
| AdaptiveRecvByteBufAllocator.SizeTable.GetSizeTableIndex | src/common/net/channel/AdaptiveRecvByteBufAllocator.cpp:23-39 | The search stays in bounds, ends, and returns an index whose neighbours enclose the size, the one that Search computes |
| AdaptiveRecvByteBufAllocator.NearIsExact | src/common/net/channel/AdaptiveRecvByteBufAllocator.cpp:23-39 | For a size of the table that index is its own |
| AdaptiveRecvByteBufAllocator.Increasing | src/common/net/channel/AdaptiveRecvByteBufAllocator.cpp:13-21 | The table is strictly increasing |
| AdaptiveRecvByteBufAllocator.Init | src/common/net/channel/AdaptiveRecvByteBufAllocator.hpp:109-137 | Rejects exactly the arguments out of order; else minIndex is the first entry not below minimum and maxIndex the last not above maximum |
| AdaptiveRecvByteBufAllocator.BoundsInOrderIff | src/common/net/channel/AdaptiveRecvByteBufAllocator.hpp:122-134 | The bounds are in order if and only if a table size lies between minimum and maximum |
| AdaptiveRecvByteBufAllocator.HandleImpl.RecordBytes | src/common/net/channel/AdaptiveRecvByteBufAllocator.hpp:66-82 | The object performs the record step on values and keeps the size equal to the entry at its index |
| AdaptiveRecvByteBufAllocator.HandleImpl.LastBytesRead | src/common/net/channel/AdaptiveRecvByteBufAllocator.hpp:50-55 | Records exactly a read that filled the attempted size |
| AdaptiveRecvByteBufAllocator.HandleImpl.ReadComplete | src/common/net/channel/AdaptiveRecvByteBufAllocator.hpp:61-63 | Records the total of the reads |
| AdaptiveRecvByteBufAllocator.RecordTracks | src/common/net/channel/AdaptiveRecvByteBufAllocator.hpp:66-82 | The size stays the entry at the index, and any change of the index brings it between the bounds |
| AdaptiveRecvByteBufAllocator.DeclineStaysAbove | src/common/net/channel/AdaptiveRecvByteBufAllocator.hpp:66-74 | A decline never leads to growth under the same read size |
| AdaptiveRecvByteBufAllocator.NoGrowthAfterDecline | src/common/net/channel/AdaptiveRecvByteBufAllocator.hpp:66-82 | Nor does any later read of that size |
| AdaptiveRecvByteBufAllocator.Approaches | src/common/net/channel/AdaptiveRecvByteBufAllocator.hpp:66-82 | Every read of one size strictly shortens the distance to a settled state |
| AdaptiveRecvByteBufAllocator.Converges | src/common/net/channel/AdaptiveRecvByteBufAllocator.hpp:66-82 | Constant reads reach, within 3 * (maxIndex - minIndex) + 3 of them, a size that never changes again and fits the reads or sits at the bound they push to |
| AdaptiveRecvByteBufAllocator.FullReads | src/common/net/channel/AdaptiveRecvByteBufAllocator.hpp:75-81 | Speed upwards: n reads that each fill their buffer lead from entry i to entry min(i + 4 n, maxIndex), the size is that entry, and no decline is pending |
| AdaptiveRecvByteBufAllocator.SmallReads | src/common/net/channel/AdaptiveRecvByteBufAllocator.hpp:67-74 | Speed downwards: n reads that each fit two entries below lead from entry i to max(i - n / 2, minIndex), one already noted counted in, and a single one changes no size |
| AdaptiveRecvByteBufAllocator.MiddleReads | src/common/net/channel/AdaptiveRecvByteBufAllocator.hpp:66-82 | Any number of reads between the two change nothing, a noted decline included |
| AdaptiveRecvByteBufAllocator.EmptyReads | src/common/net/channel/AdaptiveRecvByteBufAllocator.hpp:67-74 | 2 n empty reads lead to entry max(i - n, minIndex) |
| AdaptiveRecvByteBufAllocator.FullReadDeclinesIff | src/common/net/channel/AdaptiveRecvByteBufAllocator.hpp:66-75 | A read that fills its buffer counts as small exactly when it has 16 bytes and the buffer is the smallest |
| AdaptiveRecvByteBufAllocator.SmallestNeverGrows | src/common/net/channel/AdaptiveRecvByteBufAllocator.hpp:66-75 | So reads of 16 bytes never make the smallest buffer grow |
| AdaptiveRecvByteBufAllocator.DefaultSizes | src/common/net/channel/AdaptiveRecvByteBufAllocator.hpp:14-18 | With the default arguments the walk starts at 8192, one full read leads to 65536, and twelve empty ones from there to 1024 |
| AdaptiveRecvByteBufAllocator.FirstGuessTracks | src/common/net/channel/AdaptiveRecvByteBufAllocator.hpp:44-48 | A new handle starts at most one entry outside the bounds |
| AdaptiveRecvByteBufAllocator.FirstGuess | src/common/net/channel/AdaptiveRecvByteBufAllocator.cpp:23-39 | The search depends only on the gap between table entries in which the size lies, and rounds down in exactly the 22 gaps listed |
| AdaptiveRecvByteBufAllocator.FirstGuessInBoundsIff | src/common/net/channel/AdaptiveRecvByteBufAllocator.hpp:44-48 | With initial at table entry k or in the gap behind it: the first guess lies between minimum and maximum exactly when initial is the entry, or the search rounds that gap down and k + 1 is not minIndex, or rounds it up and k is not maxIndex |
| AdaptiveRecvByteBufAllocator.FirstGuessAboveMaximum | src/common/net/channel/AdaptiveRecvByteBufAllocator.hpp:44-48 | With 16, 3000 and 3000 the first guess is 4096 |
| ChannelPipeline.DefaultChannelPipeline.AddLast0 | src/common/net/channel/DefaultChannelPipeline.hpp:163-169 | Links a context in before the tail and keeps a well-formed chain |
| ChannelPipeline.DefaultChannelPipeline.Remove0 | src/common/net/channel/DefaultChannelPipeline.hpp:189-195 | Unlinks exactly the given context and keeps a well-formed chain |
| ChannelPipeline.DefaultChannelPipeline.ContextByName | src/common/net/channel/DefaultChannelPipeline.hpp:171-178 | Finds a context after the head, the tail included, if and only if one has the name |
| ChannelPipeline.DefaultChannelPipeline.ContextByHandler | src/common/net/channel/DefaultChannelPipeline.hpp:180-187 | Finds the first context after the head with the handler if there is one |
| ChannelPipeline.DefaultChannelPipeline.AddLast | src/common/net/channel/DefaultChannelPipeline.hpp:46-51 | Refuses exactly a name in use; else appends one context under the name given or the generated one, which no other context after the head has |
| ChannelPipeline.DefaultChannelPipeline.Remove | src/common/net/channel/DefaultChannelPipeline.hpp:53-57 | Removes the context with the name; crashes exactly for the name of the tail |
| ChannelPipeline.DefaultChannelPipeline.RemoveHandler | src/common/net/channel/DefaultChannelPipeline.hpp:59-63 | Removes the first context with the handler; crashes exactly when only the tail has it |
| ChannelPipeline.DefaultChannelPipeline.GenerateName | src/common/net/channel/DefaultChannelPipeline.cpp:21-48 | For a type that is not cached: Type#0, or when that is in use Type# and the least free number; for a cached one the empty name, or when that is in use the least free number; the cache gains exactly the type |
| ChannelPipeline.DefaultChannelPipeline.FreeSuffix | src/common/net/channel/DefaultChannelPipeline.cpp:39-45 | The unbounded suffix search ends, at the least number whose name is free |
| ChannelPipeline.GeneratedName | src/common/net/channel/DefaultChannelPipeline.cpp:21-48 | A generated name is free, and begins with the type and its mark if and only if the type was not in the cache |
| ChannelPipeline.Pigeonhole | src/common/net/channel/DefaultChannelPipeline.cpp:39-45 | More suffixes than names cannot all be taken |
| ChannelPipeline.DecimalInjective | src/common/net/channel/DefaultChannelPipeline.cpp:40 | Different numbers print differently |
| ChannelPipeline.DecimalDenotes | src/common/net/channel/DefaultChannelPipeline.cpp:40 | The digits printed denote the number, without a leading zero |
| ChannelPipeline.UnnamedHandlers | src/common/net/channel/DefaultChannelPipeline.cpp:31-48 | As a cached name is found but never read, unnamed handlers of one type are called Type#0, then the empty name, then 0 |
| ChannelPipeline.DefaultChannelPipeline.FindContextInbound | src/common/net/channel/AbstractChannelHandlerContext.hpp:145-151 | From any context before the tail the search returns the next inbound one, never null |
| ChannelPipeline.DefaultChannelPipeline.FindContextOutbound | src/common/net/channel/AbstractChannelHandlerContext.hpp:153-159 | From any context after the head the search returns the previous outbound one, never null |
| ChannelPipeline.InboundPositions | src/common/net/channel/AbstractChannelHandlerContext.hpp:145-151 | The inbound contexts are those at all inbound positions, in the order of the chain |
| ChannelPipeline.OutboundPositions | src/common/net/channel/AbstractChannelHandlerContext.hpp:153-159 | The outbound contexts are those at all outbound positions, against the order of the chain |
| ChannelPipeline.DefaultChannelPipeline.FireInbound | src/common/net/channel/AbstractChannelHandlerContext.hpp:86-89 | With forwarding handlers an event visits exactly the inbound contexts in order, from the head to the tail; otherwise the prefix up to the first that does not forward |
| ChannelPipeline.DefaultChannelPipeline.FireOutbound | src/common/net/channel/AbstractChannelHandlerContext.hpp:92-94 | With forwarding handlers a write visits exactly the outbound contexts in reverse, ending at the head; otherwise the prefix up to the first that does not forward |

## The chunk allocator and the arena's lists

| member | source | states |
|---|---|---|
| BuddyTree.RootTells | src/common/buffer/PoolChunk.cpp:138-143 | A root value above d means that every run of depth d overlaps a live one |
| BuddyTree.AvailableSeenAbove | src/common/buffer/PoolChunk.cpp:165-174 | Every node above an available run of depth d has a value of at most d |
| BuddyTree.IdleIsFree | src/common/buffer/PoolChunk.cpp:176-191 | A subtree without live runs has its own depth as value, as after construction |
| BuddyTree.MapDetermined | src/common/buffer/PoolChunk.cpp:134-191 | The map depends on the set of live runs only, not on the allocations and releases that led to it; so a release undoes an allocation exactly |
| BuddyTree.RunsDisjoint | src/common/buffer/PoolChunk.cpp:193-204 | Runs that are not above one another share no byte |
| BuddyTree.UsedAdd | src/common/buffer/PoolChunk.cpp:92-101 | Allocating an available run adds exactly its bytes to the used ones |
| PoolChunk.LiveRunsDisjoint | src/common/buffer/PoolChunk.cpp:134-163 | Two live runs occupy disjoint bytes |
| PoolChunk.RunInChunk | src/common/buffer/PoolChunk.cpp:193-204 | Every run lies inside the chunk |
| PoolChunk.OffsetOf | src/common/buffer/PoolChunk.cpp:193-204 | Node 2^d + i is the run with 2^(L - d) bytes that starts at i times that |
| PoolChunk.HighBitsTellDepth | src/common/buffer/PoolChunk.cpp:145-156 | The mask of the search is zero exactly above depth d and 1 << d at depth d |
| PoolChunk.NumberOfLeadingZeros | src/common/buffer/PoolChunk.cpp:206-216 | The conditional shifts count the leading zeros of any 32-bit word |
| PoolChunk.Log2 | src/common/buffer/PoolChunk.cpp:218-220 | The exponent of the largest power of two not above a positive int |
| PoolChunk.PoolChunk.constructor | src/common/buffer/PoolChunk.hpp:21-55 | A new chunk is free throughout and its map is coherent |
| PoolChunk.PoolChunk.FindNode | src/common/buffer/PoolChunk.cpp:134-158 | The search ends at the leftmost available run of depth d, answers -1 exactly when there is none, and never raises its error |
| PoolChunk.PoolChunk.AllocateNode | src/common/buffer/PoolChunk.cpp:134-163 | Takes exactly that run and leaves a coherent map |
| PoolChunk.PoolChunk.UpdateParentsAlloc | src/common/buffer/PoolChunk.cpp:165-174 | Taking minima upwards restores coherence after an allocation |
| PoolChunk.PoolChunk.UpdateParentsFree | src/common/buffer/PoolChunk.cpp:176-191 | Merging free siblings upwards restores coherence after a release |
| PoolChunk.PoolChunk.AllocateRun | src/common/buffer/PoolChunk.cpp:92-101 | Takes the leftmost run of the largest power of two not above the request, fails exactly when every such run overlaps a live one, and accounts for its bytes |
| PoolChunk.RootExact | src/common/buffer/PoolChunk.cpp:134-158 | A run of depth d can be allocated if and only if the value of the root is at most d |
| PoolChunk.LargestServes | src/common/buffer/PoolChunk.cpp:92-101 | A power of two can be allocated if and only if it is not above the largest run |
| PoolChunk.LargestIsFree | src/common/buffer/PoolChunk.cpp:92-101 | The largest run is part of the free bytes; in an empty chunk it is the chunk (LargestOfEmpty) |
| PoolChunk.LargestMonotone | src/common/buffer/PoolChunk.cpp:53-101 | Allocations never make the largest run larger, releases never smaller |
| PoolChunk.PoolChunk.Free | src/common/buffer/PoolChunk.cpp:53-56 | Removes exactly that run from the live ones and gives its bytes back |
| PoolChunk.PoolChunk.CurrentUsage | src/common/buffer/PoolChunk.cpp:9-20 | Usage is 0 exactly for a chunk without live runs and 100 exactly for a full one |
| PoolChunk.UsageRoundsUp | src/common/buffer/PoolChunk.cpp:9-20 | Usage is the used share in percent, rounded up, except that 100 is kept for a full chunk |
| PoolChunk.UsageMonotone | src/common/buffer/PoolChunk.cpp:9-20 | Fewer free bytes never mean a lower usage |
| PoolChunkList.ArenaBands | src/common/buffer/PoolArena.cpp:28-42 | The six lists of the arena meet what the migrations need of bands and links |
| PoolChunkList.PoolArena.constructor | src/common/buffer/PoolArena.cpp:28-42 | A new arena has no chunk and well-linked lists with the bands and capacity limits of the code |
| PoolChunkList.PoolArena.AllocateNormal | src/common/buffer/PoolArena.cpp:202-215 | The first of the lists q050, q025, q000, qInit and q075, in this order, that looks for the size and has a chunk with a run for it serves, by its first such chunk; a new chunk is made exactly when there is no such list; the chunk goes up as far as its usage asks, every other one keeps its bytes and its list |
| PoolChunkList.PoolArena.FreeChunk | src/common/buffer/PoolArena.cpp:280-285 | Destroys a chunk exactly when it is empty and outside the first list; any other goes down to the first list whose minimum its usage reaches |

## Left out

- PoolChunkList.Chunk.Allocate: does not say by how much the largest run shrinks, which PoolChunk decides by the
  positions of the live runs; the capacity is a normalised one, so that a run has as many bytes.
- PoolChunkList.Chunk.Free: takes the number of released bytes from the caller, as a subpage may return none, and does
  not say by how much the largest run grows unless the chunk is empty.
- PoolChunk.PoolChunk.Free: requires a live run; a handle released twice, or a subpage handle, is not modelled.
- CharBuf.UnpooledHeapCharBuf.EnsureWritable: requires GrowthDefined, which by GrowthLoopEndsIff leaves out exactly the
  calls that never return.
- CharBuf.UnpooledHeapCharBuf.WriteChars: requires GrowthDefined for the same reason.
- CharBuf.UnpooledHeapCharBuf.WriteSlice: requires GrowthDefined; within one buffer the range must lie before the writer
  index, as memcpy between overlapping regions is undefined.
- CharBuf.UnpooledHeapCharBuf.WriteFrom: requires GrowthDefined for the same reason.
- CharBuf.UnpooledHeapCharBuf.WriteShort: requires GrowthDefined for the same reason.
- CharBuf.UnpooledHeapCharBuf.WriteInt: requires GrowthDefined for the same reason.
- CharBuf.UnpooledHeapCharBuf.WriteLong: requires GrowthDefined for the same reason.
- CharBuf.UnpooledHeapCharBuf.ReadUInt: requires a reader index from which four bytes do not overflow an int; behind it
  the code reads outside the storage.
- CommUtil.RoundUpPower2: requires at most 2^32, as the five steps fill 32 bits; its caller passes an int.
- CommUtil.CalculateNewCapacity: requires a refused request or one for which the loop ends (GrowthLoopEndsIff).
- LengthFieldBasedFrameDecoder.FrameDecoder.Decode: requires a count within int, as otherwise the reader index can leave
  the buffer; DiscardOverflow.DecodeMotion follows it there.
- LengthFieldBasedFrameDecoder.FrameDecoder.DecodeRemovalReentryProtection: requires a supported width and a count
  within int, as it speaks of a run of the loop.
- LengthFieldBasedFrameDecoder.FrameDecoder.CallDecode: requires a supported width and a count within int, which is
  narrower than the condition for its return; DiscardOverflow.CallDecodeEndsIff has that one.
- LengthFieldBasedFrameDecoder.FrameDecoder.Cumulate: requires that the total fits an int and that the growth loop ends.
- LengthFieldBasedFrameDecoder.FrameDecoder.ChannelRead: requires what CallDecode and Cumulate require; StreamFits gives
  the former for whole streams (ReadStream).
- LengthFieldBasedFrameDecoder.FrameDecoder.ExtractFrame: the frame is a copy of the bytes; that the slice shares
  storage with the cumulation appears only as the reference count that blocks compaction.
- Subpages (PoolSubpage and allocateSubpage) and the tiny and small size classes.
- Pooled buffers, sliced buffers as objects, buffer allocators, reference counting beyond retain and release of the
  cumulation.
- Marked reader and writer indices: their adjustment depends on the order in which callers set the marks.
- Float and double accessors, which reinterpret the integer ones; setters and getters that differ from the modelled ones
  only in width.
- Events that are not inbound messages, channelInactive and handler removal in ByteToMessageDecoder; handlers further
  down the pipeline that throw.
- Sockets, Boost.Asio, acceptors, bootstrap and reconnection; the network appears as chunk arrivals and write
  completions.
- The makefile parser, the command line, os.system and the timings of parallelCompile.py; the graph, the excluded names
  and each build's result are inputs, and every build returns.
- Waiting with a timeout in ObjectQueue and Queue.get; a wait that ends without data is the empty case, respectively the
  Timeout step.
- The use of PoolThreadCache by PoolArena, which the repository compiles out, its periodic sweep over the caches, and
  the caches of subpages.
- The base handle of AdaptiveRecvByteBufAllocator (message limits and totals); the attempted and total byte counts are
  arguments.
- Exception message texts, console output, AsyncObject, ConcurrentHashMap, listener lists and reactor choosers.
