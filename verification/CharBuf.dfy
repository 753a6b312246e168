/** UnpooledHeapCharBuf with the index arithmetic it inherits from AbstractCharBuf: a growable byte queue.
    A method that throws in the source returns ok == false here and leaves the object as it was. */
module CharBuf {
  import opened Words
  import Codec = HeapCharBufUtil
  import CommUtil

  // ----- The guards, in 32-bit arithmetic -----

  /** checkReadable lets the call through. */
  predicate ReadablePasses(readerIndex: int, writerIndex: int, n: int) {
    ToInt32(readerIndex + n) <= writerIndex
  }

  /** checkReadable admits exactly the lengths the readable region holds, if and only if the length is
      non-negative and does not overflow when added to the reader index. */
  lemma ReadableGuardExact(readerIndex: int, writerIndex: int, n: int)
    requires 0 <= readerIndex <= writerIndex <= INT_MAX && INT_MIN <= n <= INT_MAX
    ensures (ReadablePasses(readerIndex, writerIndex, n) <==> 0 <= n <= writerIndex - readerIndex) <==>
            0 <= n <= INT_MAX - readerIndex
  {
    var sum := readerIndex + n;
    if sum > INT_MAX {
      assert ToInt32(sum) == sum - 0x1_0000_0000;
    }
  }

  /** The sign test of checkRangeBounds: an or of numbers is negative when one of them is. */
  predicate RangeFails(index: int, fieldLength: int, capacity: int) {
    var end := ToInt32(index + fieldLength);
    index < 0 || fieldLength < 0 || end < 0 || ToInt32(capacity - end) < 0
  }

  /** The sign test rejects exactly the fields that do not lie inside the capacity, overflow included. */
  lemma RangeGuardExact(index: int, fieldLength: int, capacity: int)
    requires INT_MIN <= index <= INT_MAX && INT_MIN <= fieldLength <= INT_MAX && 0 <= capacity <= INT_MAX
    ensures RangeFails(index, fieldLength, capacity) <==>
            !(0 <= index && 0 <= fieldLength && index + fieldLength <= capacity)
  {
    if index + fieldLength > INT_MAX {
      assert ToInt32(index + fieldLength) == index + fieldLength - 0x1_0000_0000;
    }
  }

  /** memcpy, as an ascending byte loop; the regions may overlap when the target starts first. */
  method CopyAscending(dst: array<byte>, dstIndex: nat, src: array<byte>, srcIndex: nat, length: nat)
    requires dstIndex + length <= dst.Length && srcIndex + length <= src.Length
    requires dst == src ==> dstIndex <= srcIndex || srcIndex + length <= dstIndex
    modifies dst
    ensures dst[..] == old(dst[..dstIndex]) + old(src[srcIndex..srcIndex + length]) + old(dst[dstIndex + length..])
  {
    ghost var moved := src[srcIndex..srcIndex + length];
    var i := 0;
    while i < length
      invariant 0 <= i <= length
      invariant forall k :: dstIndex <= k < dstIndex + i ==> dst[k] == moved[k - dstIndex]
      invariant forall k :: 0 <= k < dst.Length && !(dstIndex <= k < dstIndex + i) ==> dst[k] == old(dst[k])
      invariant dst != src ==> src[srcIndex..srcIndex + length] == moved
    {
      assert src[srcIndex + i] == moved[i];
      dst[dstIndex + i] := src[srcIndex + i];
      i := i + 1;
    }
  }

  lemma SubSlice(s: seq<byte>, from: nat, to: nat, i: nat, j: nat)
    requires from <= i <= j <= to <= |s|
    ensures s[i..j] == s[from..to][i - from..j - from]
  {
    assert forall k :: 0 <= k < j - i ==> s[i..j][k] == s[from..to][i - from..j - from][k];
  }

  lemma FrontSlice(s: seq<byte>, from: nat, to: nat, n: int)
    requires from <= to <= |s| && n <= to - from
    ensures n >= 0 ==> s[from..from + n] == s[from..to][..n]
  {
  }

  lemma DropFront(s: seq<byte>, tail: seq<byte>, n: nat)
    ensures n <= |s| ==> (s + tail)[n..] == s[n..] + tail
  {
  }

  /** The bytes that both storages have room for are the same. */
  ghost predicate KeepsBytes(a: seq<byte>, b: seq<byte>) {
    forall k :: 0 <= k < |a| && k < |b| ==> a[k] == b[k]
  }

  lemma SameRange(a: seq<byte>, b: seq<byte>, i: nat, j: nat)
    requires KeepsBytes(a, b) && i <= j <= |a| && j <= |b|
    ensures a[i..j] == b[i..j]
  {
  }

  class UnpooledHeapCharBuf {
    var readerIndex: int
    var writerIndex: int
    var maxCapacity: int
    var memory: array<byte>
    var refCnt: int

    ghost predicate Valid()
      reads this
    {
      0 <= readerIndex <= writerIndex <= memory.Length <= maxCapacity <= INT_MAX
    }

    /** The byte queue that the buffer stands for. */
    function Readable(): (s: seq<byte>)
      requires Valid()
      reads this, memory
      ensures |s| == ReadableBytes()
    {
      memory[readerIndex..writerIndex]
    }

    function Capacity(): int
      reads this
    {
      memory.Length
    }

    function ReadableBytes(): int
      reads this
    {
      writerIndex - readerIndex
    }

    function WritableBytes(): int
      reads this
    {
      Capacity() - writerIndex
    }

    /** ensureWritable returns: growth by n is unnecessary, refused, or (CommUtil.GrowthLoopEndsIff) one for which
        the loop of calculateNewCapacity ends. */
    predicate GrowthDefined(n: int)
      reads this
    {
      n <= WritableBytes() || n > maxCapacity - writerIndex || (1 <= Capacity() && writerIndex + n <= TWO_30)
    }

    constructor (initialCapacity: nat, maxCapacity: nat)
      requires initialCapacity <= maxCapacity <= INT_MAX
      ensures Valid() && fresh(memory)
      ensures Readable() == [] && readerIndex == 0 && Capacity() == initialCapacity && this.maxCapacity == maxCapacity
      ensures refCnt == 1
    {
      readerIndex, writerIndex := 0, 0;
      this.maxCapacity := maxCapacity;
      memory := new byte[initialCapacity];
      refCnt := 1;
    }

    /** Copy construction: the same indices and bytes in storage of its own. */
    constructor DeepCopy(rhs: UnpooledHeapCharBuf)
      requires rhs.Valid()
      ensures Valid() && fresh(memory)
      ensures readerIndex == rhs.readerIndex && writerIndex == rhs.writerIndex && maxCapacity == rhs.maxCapacity
      ensures memory[..] == rhs.memory[..] && Readable() == rhs.Readable()
      ensures refCnt == 1
    {
      readerIndex, writerIndex, maxCapacity := rhs.readerIndex, rhs.writerIndex, rhs.maxCapacity;
      memory := new byte[rhs.memory.Length];
      refCnt := 1;
      new;
      CopyAscending(memory, 0, rhs.memory, 0, rhs.memory.Length);
    }

    method Retain()
      modifies `refCnt
      ensures refCnt == old(refCnt) + 1
    {
      refCnt := refCnt + 1;
    }

    method Release()
      modifies `refCnt
      ensures refCnt == old(refCnt) - 1
    {
      refCnt := refCnt - 1;
    }

    method SetReaderIndex(index: int) returns (ok: bool)
      requires Valid()
      modifies `readerIndex
      ensures Valid() && (ok <==> 0 <= index <= writerIndex)
      ensures readerIndex == if ok then index else old(readerIndex)
      ensures ok && index >= old(readerIndex) ==> Readable() == old(Readable())[index - old(readerIndex)..]
    {
      ok := !(index < 0 || index > writerIndex || writerIndex > maxCapacity);
      if ok {
        readerIndex := index;
      }
    }

    /** The source tests against maxCapacity only, so an index behind the storage is accepted. */
    method SetWriterIndex(index: int) returns (ok: bool)
      requires Valid()
      modifies `writerIndex
      ensures ok <==> readerIndex <= index <= maxCapacity
      ensures writerIndex == if ok then index else old(writerIndex)
      ensures Valid() <==> ok ==> index <= Capacity()
    {
      ok := !(readerIndex < 0 || readerIndex > index || index > maxCapacity);
      if ok {
        writerIndex := index;
      }
    }

    /** Growing keeps every byte; shrinking truncates the readable bytes at the new capacity. */
    method SetCapacity(newCapacity: nat)
      requires Valid() && newCapacity <= maxCapacity
      modifies this`readerIndex, this`writerIndex, this`memory
      ensures Valid() && Capacity() == newCapacity
      ensures memory == old(memory) || fresh(memory)
      ensures readerIndex == Min(old(readerIndex), newCapacity) && writerIndex == Min(old(writerIndex), newCapacity)
      ensures KeepsBytes(memory[..], old(memory[..]))
    {
      var oldCapacity := memory.Length;
      if oldCapacity == newCapacity {
        return;
      }
      if newCapacity < oldCapacity {
        if readerIndex < newCapacity {
          if writerIndex > newCapacity {
            writerIndex := newCapacity;
          }
        } else {
          readerIndex, writerIndex := newCapacity, newCapacity;
        }
      }
      var storage := new byte[newCapacity];
      CopyAscending(storage, 0, memory, 0, Min(oldCapacity, newCapacity));
      memory := storage;
    }

    method EnsureWritable(minWritableBytes: int) returns (ok: bool)
      requires Valid() && GrowthDefined(minWritableBytes)
      modifies this`readerIndex, this`writerIndex, this`memory
      ensures Valid() && (ok <==> minWritableBytes <= maxCapacity - writerIndex)
      ensures memory == old(memory) || fresh(memory)
      ensures readerIndex == old(readerIndex) && writerIndex == old(writerIndex)
      ensures Readable() == old(Readable()) && KeepsBytes(memory[..], old(memory[..]))
      ensures ok ==> minWritableBytes <= WritableBytes()
      ensures minWritableBytes <= old(WritableBytes()) ==> memory == old(memory)
      ensures Capacity() ==
        if minWritableBytes <= old(WritableBytes()) || !ok then old(Capacity())
        else Min(CommUtil.PowerAtLeast(Max(old(Capacity()), writerIndex + minWritableBytes)), maxCapacity)
    {
      if minWritableBytes > WritableBytes() {
        if minWritableBytes > maxCapacity - writerIndex {
          return false;
        }
        CommUtil.PowerAtMost30(Max(memory.Length, writerIndex + minWritableBytes));
        var newCapacity := CommUtil.CalculateNewCapacity(memory.Length, writerIndex + minWritableBytes, maxCapacity);
        SetCapacity(newCapacity.value);
        SameRange(memory[..], old(memory[..]), readerIndex, writerIndex);
      }
      ok := true;
    }

    /** The copy into the free tail, once there is room. */
    method Append(src: array<byte>, srcIndex: nat, length: nat)
      requires Valid() && length <= WritableBytes() && srcIndex + length <= src.Length
      requires src == memory ==> srcIndex + length <= writerIndex
      modifies this`writerIndex, memory
      ensures Valid() && writerIndex == old(writerIndex) + length
      ensures Readable() == old(Readable()) + old(src[srcIndex..srcIndex + length])
    {
      CopyAscending(memory, writerIndex, src, srcIndex, length);
      writerIndex := writerIndex + length;
    }

    /** writeChars(const char*, int) and writeString. */
    method WriteChars(src: array<byte>, length: nat) returns (ok: bool)
      requires Valid() && src != memory && length <= src.Length <= INT_MAX && GrowthDefined(length)
      modifies this`readerIndex, this`writerIndex, this`memory, memory
      ensures Valid() && (memory == old(memory) || fresh(memory))
      ensures ok <==> length <= maxCapacity - old(writerIndex)
      ensures readerIndex == old(readerIndex)
      ensures Readable() == if ok then old(Readable()) + src[..length] else old(Readable())
    {
      ok := EnsureWritable(length);
      if ok {
        Append(src, 0, length);
      }
    }

    /** writeChars(CharBuf&, int, int): appends bytes of the storage of src, which may be this buffer. */
    method WriteSlice(src: UnpooledHeapCharBuf, srcIndex: int, length: int) returns (ok: bool)
      requires Valid() && src.Valid() && (src == this || src.memory != memory) && GrowthDefined(length)
      requires INT_MIN <= srcIndex <= INT_MAX && INT_MIN <= length <= INT_MAX
      requires src == this ==> srcIndex + length <= writerIndex
      modifies this`readerIndex, this`writerIndex, this`memory, memory
      ensures Valid() && (memory == old(memory) || fresh(memory)) && (src != this ==> src.memory != memory)
      ensures ok <==> 0 <= length <= maxCapacity - old(writerIndex) && 0 <= srcIndex <= old(src.Capacity()) - length
      ensures readerIndex == old(readerIndex) && writerIndex == old(writerIndex) + if ok then length else 0
      ensures Readable() == old(Readable()) + if ok then old(src.memory[srcIndex..srcIndex + length]) else []
      ensures src != this ==> src.Readable() == old(src.Readable())
      ensures length <= old(WritableBytes()) ==> memory == old(memory)
    {
      ok := EnsureWritable(length);
      if ok {
        RangeGuardExact(srcIndex, length, src.Capacity());
        if RangeFails(srcIndex, length, src.Capacity()) {
          return false;
        }
        SameRange(src.memory[..], old(src.memory[..]), srcIndex, srcIndex + length);
        Append(src.memory, srcIndex, length);
      }
    }

    /** writeChars(CharBuf&, int): moves bytes from the front of src; src may be this buffer. */
    method WriteFrom(src: UnpooledHeapCharBuf, length: int) returns (ok: bool)
      requires Valid() && src.Valid() && (src == this || src.memory != memory)
      requires INT_MIN <= length <= INT_MAX && (length <= src.ReadableBytes() ==> GrowthDefined(length))
      modifies this`readerIndex, this`writerIndex, this`memory, memory, src`readerIndex
      ensures Valid() && src.Valid() && (memory == old(memory) || fresh(memory))
      ensures ok <==> 0 <= length <= old(src.ReadableBytes()) && length <= maxCapacity - old(writerIndex)
      ensures !ok ==> Readable() == old(Readable()) && src.Readable() == old(src.Readable())
      ensures ok ==>
        src.Readable() == old(src.Readable())[length..] + if src == this then old(src.Readable())[..length] else []
      ensures ok && src != this ==> Readable() == old(Readable()) + old(src.Readable())[..length]
      ensures src != this ==> readerIndex == old(readerIndex)
      ensures length <= old(WritableBytes()) ==> memory == old(memory)
    {
      if length > src.ReadableBytes() {
        return false;
      }
      ghost var before, given := Readable(), src.Readable();
      ok := WriteSlice(src, src.readerIndex, length);
      if ok {
        FrontSlice(old(src.memory[..]), old(src.readerIndex), old(src.writerIndex), length);
        assert Readable() == before + given[..length];
        ghost var tail := if src == this then given[..length] else [];
        assert src.Readable() == given + tail;
        DropFront(given, tail, length);
        var moved := src.SetReaderIndex(src.readerIndex + length);
        assert src.Readable() == given[length..] + tail;
      }
    }

    method WriteShort(value: int) returns (ok: bool)
      requires Valid() && GrowthDefined(2)
      modifies this`readerIndex, this`writerIndex, this`memory, memory
      ensures Valid() && (memory == old(memory) || fresh(memory)) && readerIndex == old(readerIndex)
      ensures ok <==> 2 <= maxCapacity - old(writerIndex)
      ensures Readable() == if ok then old(Readable()) + Codec.ToBytes(value, 2) else old(Readable())
    {
      ok := EnsureWritable(2);
      if ok {
        Codec.SetShort(memory, writerIndex, value);
        writerIndex := writerIndex + 2;
      }
    }

    /** writeInt and writeUInt store the same four bytes. */
    method WriteInt(value: int) returns (ok: bool)
      requires Valid() && GrowthDefined(4)
      modifies this`readerIndex, this`writerIndex, this`memory, memory
      ensures Valid() && (memory == old(memory) || fresh(memory)) && readerIndex == old(readerIndex)
      ensures ok <==> 4 <= maxCapacity - old(writerIndex)
      ensures Readable() == if ok then old(Readable()) + Codec.ToBytes(value, 4) else old(Readable())
    {
      ok := EnsureWritable(4);
      if ok {
        Codec.SetInt(memory, writerIndex, value);
        writerIndex := writerIndex + 4;
      }
    }

    method WriteLong(value: int) returns (ok: bool)
      requires Valid() && GrowthDefined(8)
      modifies this`readerIndex, this`writerIndex, this`memory, memory
      ensures Valid() && (memory == old(memory) || fresh(memory)) && readerIndex == old(readerIndex)
      ensures ok <==> 8 <= maxCapacity - old(writerIndex)
      ensures Readable() == if ok then old(Readable()) + Codec.ToBytes(value, 8) else old(Readable())
    {
      ok := EnsureWritable(8);
      if ok {
        Codec.SetLong(memory, writerIndex, value);
        writerIndex := writerIndex + 8;
      }
    }

    /** A length that checkReadable wrongly lets through moves the reader index back. */
    method SkipBytes(n: int) returns (ok: bool)
      requires Valid() && INT_MIN <= n <= INT_MAX
      modifies `readerIndex
      ensures ok <==> ReadablePasses(old(readerIndex), writerIndex, n)
      ensures readerIndex == if ok then ToInt32(old(readerIndex) + n) else old(readerIndex)
      ensures 0 <= n <= INT_MAX - old(readerIndex) ==> Valid() && (ok <==> n <= |old(Readable())|)
      ensures 0 <= n <= |old(Readable())| ==> Readable() == old(Readable())[n..]
      ensures !ok ==> Readable() == old(Readable())
    {
      ReadableGuardExact(readerIndex, writerIndex, n);
      ok := ReadablePasses(readerIndex, writerIndex, n);
      if ok {
        readerIndex := ToInt32(readerIndex + n);
      }
    }

    /** The bounds check of getChars catches the lengths that checkReadable wrongly lets through. */
    method ReadChars(length: int) returns (r: Option<seq<byte>>)
      requires Valid() && INT_MIN <= length <= INT_MAX
      modifies `readerIndex
      ensures Valid() && (r.Some? <==> 0 <= length <= |old(Readable())|)
      ensures r == None ==> Readable() == old(Readable())
      ensures r.Some? ==> r.value + Readable() == old(Readable()) && |r.value| == length
    {
      ReadableGuardExact(readerIndex, writerIndex, length);
      if !ReadablePasses(readerIndex, writerIndex, length) {
        return None;
      }
      RangeGuardExact(readerIndex, length, Capacity());
      if RangeFails(readerIndex, length, Capacity()) {
        return None;
      }
      r := Some(memory[readerIndex..readerIndex + length]);
      readerIndex := readerIndex + length;
    }

    method ReadUInt() returns (r: Option<int>)
      requires Valid() && readerIndex <= INT_MAX - 4
      modifies `readerIndex
      ensures Valid() && (r == None <==> |old(Readable())| < 4)
      ensures r == None ==> Readable() == old(Readable())
      ensures r.Some? ==> 0 <= r.value <= 0xFFFF_FFFF && Codec.ToBytes(r.value, 4) + Readable() == old(Readable())
    {
      ReadableGuardExact(readerIndex, writerIndex, 4);
      if !ReadablePasses(readerIndex, writerIndex, 4) {
        return None;
      }
      ghost var s := memory[readerIndex..readerIndex + 4];
      r := Some(Codec.GetUInt(memory[..], readerIndex));
      Codec.ToFromBytes(s);
      Codec.GettersReadBytes(memory[..], readerIndex);
      assert memory[..][readerIndex..readerIndex + 4] == s;
      readerIndex := readerIndex + 4;
    }

    /** Compaction: the readable bytes move to the front, over themselves where the regions overlap. */
    method DiscardReadBytes()
      requires Valid()
      modifies this`readerIndex, this`writerIndex, memory
      ensures Valid() && readerIndex == 0 && memory == old(memory)
      ensures Readable() == old(Readable())
    {
      if readerIndex == 0 {
        return;
      }
      if readerIndex != writerIndex {
        CopyAscending(memory, 0, memory, readerIndex, writerIndex - readerIndex);
        writerIndex := writerIndex - readerIndex;
        readerIndex := 0;
      } else {
        writerIndex, readerIndex := 0, 0;
      }
    }

    /** Compaction only when it pays: nothing readable, or half the capacity already read. */
    method DiscardSomeReadBytes()
      requires Valid()
      modifies this`readerIndex, this`writerIndex, memory
      ensures Valid() && memory == old(memory)
      ensures Readable() == old(Readable())
      ensures if old(readerIndex) == old(writerIndex) || old(readerIndex) >= Capacity() / 2 then readerIndex == 0
        else readerIndex == old(readerIndex)
    {
      if readerIndex == 0 {
        return;
      }
      if readerIndex == writerIndex {
        writerIndex, readerIndex := 0, 0;
        return;
      }
      if readerIndex >= Capacity() / 2 {
        CopyAscending(memory, 0, memory, readerIndex, writerIndex - readerIndex);
        writerIndex := writerIndex - readerIndex;
        readerIndex := 0;
      }
    }
  }
}
