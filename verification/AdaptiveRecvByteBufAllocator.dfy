/** AdaptiveRecvByteBufAllocator: guesses the next receive size by walking a fixed table of sizes. */
module AdaptiveRecvByteBufAllocator {
  import opened Words

  const ENTRIES := 53
  const INDEX_INCREMENT := 4
  const INDEX_DECREMENT := 1

  // ----- The table -----

  /** The k-th size: steps of 16 below 512, then powers of two up to 2^30. */
  function Size(k: nat): nat {
    if k < 31 then 16 * (k + 1) else Pow2(k - 22)
  }

  function Table(): (t: seq<int>) {
    seq(ENTRIES, k requires 0 <= k => Size(k))
  }

  lemma {:induction false} Increasing(j: nat, k: nat)
    requires j < k
    ensures Size(j) < Size(k)
    decreases k
  {
    if k >= 31 {
      assert Pow2(9) == 512 by {
        Pow2Table();
        Pow2Add(5, 4);
        assert Pow2(5) == 2 * Pow2(4);
      }
      assert k > 31 ==> Pow2(k - 22) == 2 * Pow2(k - 23);
    }
    if j < k - 1 {
      Increasing(j, k - 1);
    }
  }

  /** The 53 sizes: 16, 32, up to 496 in steps of 16, then 512 and its doubles up to 2^30. */
  lemma TableSizes()
    ensures forall k :: 0 <= k < 31 ==> Size(k) == 16 * (k + 1)
    ensures Size(31) == 512 && Size(ENTRIES - 1) == 0x4000_0000
    ensures forall k :: 31 <= k < ENTRIES - 1 ==> Size(k + 1) == 2 * Size(k) <= 0x4000_0000
  {
    Pow2Table();
    Pow2Add(5, 4);
    assert Pow2(5) == 2 * Pow2(4);
    forall k | 31 <= k < ENTRIES - 1
      ensures Size(k + 1) == 2 * Size(k) <= 0x4000_0000
    {
      Pow2Monotone(k - 21, 30);
    }
  }

  /** The search between two indices, as a function. */
  function Search(low: int, high: int, size: int): int
    requires 0 <= low <= high + 1 <= ENTRIES && low < ENTRIES
    decreases high - low
  {
    if low >= high then low
    else
      var mid := (low + high) / 2;
      if size == Size(mid) then mid
      else if size < Size(mid) then Search(low, mid - 1, size)
      else if size > Size(mid + 1) then Search(mid + 1, high, size)
      else mid + 1
  }

  class SizeTable {
    var sizes: seq<int>

    ghost predicate Valid()
      reads this
    {
      sizes == Table()
    }

    /** The second loop stops when doubling overflows to a negative number. */
    constructor ()
      ensures Valid()
    {
      var s: seq<int> := [];
      var i := 16;
      while i < 512
        invariant i == 16 * (|s| + 1) && |s| <= 31 && s == Table()[..|s|]
      {
        s := s + [i];
        i := i + 16;
      }
      TableSizes();
      while i > 0
        invariant 31 <= |s| <= ENTRIES && s == Table()[..|s|]
        invariant i == if |s| < ENTRIES then Size(|s|) else INT_MIN
        decreases ENTRIES - |s|
      {
        s := s + [i];
        i := ToInt32(i * 2);
      }
      sizes := s;
    }

    function GetSize(index: int): (size: int)
      requires Valid()
      reads this
      ensures size == Clamped(index)
    {
      if index <= 0 then sizes[0] else if index >= |sizes| then sizes[|sizes| - 1] else sizes[index]
    }

    /** The index of an entry next to the size: the entry before is smaller, the entry after is larger. */
    method GetSizeTableIndex(size: int) returns (r: int)
      requires Valid()
      ensures r >= 0 && Near(r, size)
      ensures r == Search(0, ENTRIES - 1, size)
    {
      SearchIsNear(0, ENTRIES - 1, size);
      var low, high := 0, |sizes| - 1;
      while low < high
        invariant 0 <= low <= high + 1 <= ENTRIES && low < ENTRIES
        invariant Search(low, high, size) == Search(0, ENTRIES - 1, size)
        decreases high - low
      {
        var mid := (low + high) / 2;
        var a, b := sizes[mid], sizes[mid + 1];
        if size == a {
          return mid;
        } else if size < a {
          high := mid - 1;
        } else if size > b {
          low := mid + 1;
        } else {
          return mid + 1;
        }
      }
      return low;
    }
  }

  lemma {:induction false} SearchIsNear(low: int, high: int, size: int)
    requires 0 <= low <= high + 1 <= ENTRIES && low < ENTRIES
    requires low > 0 ==> Size(low) < size
    requires high < ENTRIES - 1 ==> size < Size(high + 1)
    ensures var r := Search(low, high, size);
      r >= 0 && Near(r, size)
    decreases high - low
  {
    if low >= high {
      Neighbours(low);
    } else {
      var mid := (low + high) / 2;
      Neighbours(mid);
      if size < Size(mid) {
        SearchIsNear(low, mid - 1, size);
      } else if size > Size(mid + 1) {
        SearchIsNear(mid + 1, high, size);
      } else if size != Size(mid) {
        Neighbours(mid + 1);
      }
    }
  }

  function Clamped(index: int): (size: nat) {
    if index <= 0 then Size(0) else if index >= ENTRIES then Size(ENTRIES - 1) else Size(index)
  }

  predicate Near(r: nat, size: int) {
    r < ENTRIES && (r > 0 ==> Size(r - 1) < size) && (r < ENTRIES - 1 ==> size < Size(r + 1))
  }

  lemma Neighbours(k: nat)
    ensures k > 0 ==> Size(k - 1) < Size(k)
    ensures Size(k) < Size(k + 1)
  {
    if k > 0 {
      Increasing(k - 1, k);
    }
    Increasing(k, k + 1);
  }

  /** The search finds every size of the table. */
  lemma NearIsExact(r: nat, k: nat)
    requires Near(r, Size(k)) && k < ENTRIES
    ensures r == k
  {
    if r < k {
      if r + 1 < k {
        Increasing(r + 1, k);
      }
    } else if r > k {
      if k < r - 1 {
        Increasing(k, r - 1);
      }
    }
  }

  // ----- The allocator's bounds -----

  datatype Error = Minimum | Initial | Maximum

  datatype Result<T> = Ok(value: T) | Err(error: Error)

  datatype Bounds = Bounds(minIndex: int, maxIndex: int, initial: int)

  /** minIndex is the first entry not below minimum, maxIndex the last one not above maximum. */
  ghost predicate Delimits(b: Bounds, minimum: int, maximum: int) {
    && 0 <= b.minIndex <= ENTRIES && -1 <= b.maxIndex < ENTRIES
    && (forall k: nat :: k < ENTRIES ==> (Size(k) < minimum <==> k < b.minIndex))
    && (forall k: nat :: k < ENTRIES ==> (Size(k) <= maximum <==> k <= b.maxIndex))
  }

  method Init(table: SizeTable, minimum: int, initial: int, maximum: int) returns (r: Result<Bounds>)
    requires table.Valid()
    ensures minimum <= 0 ==> r == Err(Minimum)
    ensures minimum > 0 && initial < minimum ==> r == Err(Initial)
    ensures minimum > 0 && initial >= minimum && maximum < initial ==> r == Err(Maximum)
    ensures 0 < minimum <= initial <= maximum ==>
      r.Ok? && r.value.initial == initial && Delimits(r.value, minimum, maximum)
  {
    if minimum <= 0 {
      return Err(Minimum);
    }
    if initial < minimum {
      return Err(Initial);
    }
    if maximum < initial {
      return Err(Maximum);
    }
    var minIndex := table.GetSizeTableIndex(minimum);
    var lowest := if table.GetSize(minIndex) < minimum then minIndex + 1 else minIndex;
    var maxIndex := table.GetSizeTableIndex(maximum);
    var highest: int := if table.GetSize(maxIndex) > maximum then maxIndex - 1 else maxIndex;
    NearDelimits(minIndex, maxIndex, minimum, initial, maximum);
    r := Ok(Bounds(lowest, highest, initial));
  }

  /** A neighbour on the wrong side is corrected by one. */
  lemma NearDelimits(i: nat, j: nat, minimum: int, initial: int, maximum: int)
    requires Near(i, minimum) && Near(j, maximum)
    ensures Delimits(Bounds(if Size(i) < minimum then i + 1 else i, if Size(j) > maximum then j - 1 else j, initial),
      minimum, maximum)
  {
    NearSplits(i, minimum);
    NearSplits(j, maximum);
  }

  lemma NearSplits(r: nat, size: int)
    requires Near(r, size)
    ensures forall k: nat :: k < r ==> Size(k) < size
    ensures forall k: nat :: r < k < ENTRIES ==> Size(k) > size
  {
    forall k: nat | k < r
      ensures Size(k) < size
    {
      if k < r - 1 {
        Increasing(k, r - 1);
      }
    }
    forall k: nat | r < k < ENTRIES
      ensures Size(k) > size
    {
      if r + 1 < k {
        Increasing(r + 1, k);
      }
    }
  }

  /** The bounds are in order exactly when some size lies between minimum and maximum. */
  lemma BoundsInOrderIff(b: Bounds, minimum: int, maximum: int)
    requires Delimits(b, minimum, maximum)
    ensures b.minIndex <= b.maxIndex <==> exists k: nat :: k < ENTRIES && minimum <= Size(k) <= maximum
  {
    if b.minIndex <= b.maxIndex {
      assert minimum <= Size(b.minIndex) <= maximum;
    }
  }

  // ----- The feedback -----

  datatype State = State(index: int, size: int, decreaseNow: bool)

  /** record on values. */
  function Record(s: State, lo: int, hi: int, bytes: int): State {
    if bytes <= Clamped(Max(0, s.index - INDEX_DECREMENT - 1)) then
      if s.decreaseNow then
        var index := Max(s.index - INDEX_DECREMENT, lo);
        State(index, Clamped(index), false)
      else
        s.(decreaseNow := true)
    else if bytes >= s.size then
      var index := Min(s.index + INDEX_INCREMENT, hi);
      State(index, Clamped(index), false)
    else s
  }

  class HandleImpl {
    const sizeTable: SizeTable
    const minIndex: int
    const maxIndex: int
    var index: int
    var nextReceiveBufferSize: int
    var decreaseNow: bool

    function Current(): State
      reads this
    {
      State(index, nextReceiveBufferSize, decreaseNow)
    }

    ghost predicate Valid()
      reads this, sizeTable
    {
      sizeTable.Valid() && nextReceiveBufferSize == Clamped(index)
    }

    constructor (table: SizeTable, bounds: Bounds)
      requires table.Valid()
      ensures Valid() && sizeTable == table && minIndex == bounds.minIndex && maxIndex == bounds.maxIndex
      ensures index >= 0 && Near(index, bounds.initial) && index == Search(0, ENTRIES - 1, bounds.initial)
      ensures !decreaseNow
    {
      sizeTable, minIndex, maxIndex, decreaseNow := table, bounds.minIndex, bounds.maxIndex, false;
      var i := table.GetSizeTableIndex(bounds.initial);
      index := i;
      nextReceiveBufferSize := table.GetSize(i);
    }

    method RecordBytes(actualReadBytes: int)
      requires Valid()
      modifies this
      ensures Valid() && Current() == Record(old(Current()), minIndex, maxIndex, actualReadBytes)
    {
      if actualReadBytes <= sizeTable.GetSize(Max(0, index - INDEX_DECREMENT - 1)) {
        if decreaseNow {
          index := Max(index - INDEX_DECREMENT, minIndex);
          nextReceiveBufferSize := sizeTable.GetSize(index);
          decreaseNow := false;
        } else {
          decreaseNow := true;
        }
      } else if actualReadBytes >= nextReceiveBufferSize {
        index := Min(index + INDEX_INCREMENT, maxIndex);
        nextReceiveBufferSize := sizeTable.GetSize(index);
        decreaseNow := false;
      }
    }

    /** A read that filled the buffer it was given counts at once. */
    method LastBytesRead(bytes: int, attemptedBytesRead: int)
      requires Valid()
      modifies this
      ensures Valid()
      ensures Current() == if bytes == attemptedBytesRead then Record(old(Current()), minIndex, maxIndex, bytes)
        else old(Current())
    {
      if bytes == attemptedBytesRead {
        RecordBytes(bytes);
      }
    }

    method ReadComplete(totalBytesRead: int)
      requires Valid()
      modifies this
      ensures Valid() && Current() == Record(old(Current()), minIndex, maxIndex, totalBytesRead)
    {
      RecordBytes(totalBytesRead);
    }
  }

  // ----- Convergence -----

  /** What the states of a handle satisfy: the size is the entry at the index, and the index is in the bounds,
      except that a first guess may lie one entry outside. */
  ghost predicate Tracks(s: State, lo: int, hi: int) {
    && 0 <= lo <= hi < ENTRIES
    && lo - 1 <= s.index <= hi + 1 && 0 <= s.index < ENTRIES
    && s.size == Clamped(s.index)
  }

  lemma FirstGuessTracks(b: Bounds, minimum: int, maximum: int, index: nat)
    requires Delimits(b, minimum, maximum) && minimum <= b.initial <= maximum
    requires Near(index, b.initial) && b.minIndex <= b.maxIndex
    ensures Tracks(State(index, Clamped(index), false), b.minIndex, b.maxIndex)
  {
    assert index + 1 < ENTRIES ==> (Size(index + 1) < minimum <==> index + 1 < b.minIndex);
    assert index > 0 ==> (Size(index - 1) <= maximum <==> index - 1 <= b.maxIndex);
  }

  lemma RecordTracks(s: State, lo: int, hi: int, bytes: int)
    requires Tracks(s, lo, hi)
    ensures var t := Record(s, lo, hi, bytes);
      Tracks(t, lo, hi) && (t.index != s.index ==> lo <= t.index <= hi)
  {
  }

  predicate Declines(s: State, bytes: int) {
    bytes <= Clamped(Max(0, s.index - INDEX_DECREMENT - 1))
  }

  predicate Grows(s: State, bytes: int) {
    !Declines(s, bytes) && bytes >= s.size
  }

  /** Reads of this many bytes keep the size: they fit with less than two entries to spare, or the size has
      reached the bound it is pushed towards. */
  predicate Settled(s: State, lo: int, hi: int, bytes: int) {
    if Declines(s, bytes) then s.index == lo
    else if Grows(s, bytes) then s.index == hi
    else true
  }

  /** How many more reads of this size it takes at most. */
  function Distance(s: State, lo: int, hi: int, bytes: int): (d: int)
    requires Tracks(s, lo, hi)
    ensures 0 <= d <= 3 * (hi - lo) + 3
    ensures d == 0 <==> Settled(s, lo, hi, bytes)
  {
    if Settled(s, lo, hi, bytes) then 0
    else if Declines(s, bytes) then
      (if s.index < lo then 1 else 2 * (s.index - lo)) + if s.decreaseNow then 0 else 1
    else if s.index > hi then 1
    else 2 * (hi - lo) + 1 + (hi - s.index)
  }

  /** A decline never leads to growth, as the entry below is still larger than the bytes read. */
  lemma DeclineStaysAbove(s: State, lo: int, hi: int, bytes: int)
    requires Tracks(s, lo, hi) && Declines(s, bytes)
    ensures !Grows(Record(s, lo, hi, bytes), bytes)
  {
    var t := Record(s, lo, hi, bytes);
    if t.index != s.index {
      if 2 <= s.index {
        if s.index - 2 < t.index {
          Increasing(s.index - 2, t.index);
        }
      } else if t.index > 0 {
        Increasing(0, t.index);
      }
    } else if s.index >= 2 {
      Increasing(s.index - 2, s.index);
    }
  }

  lemma SettledStays(s: State, lo: int, hi: int, bytes: int)
    requires Tracks(s, lo, hi) && Settled(s, lo, hi, bytes)
    ensures var t := Record(s, lo, hi, bytes);
      Settled(t, lo, hi, bytes) && t.index == s.index && t.size == s.size
  {
  }

  lemma Approaches(s: State, lo: int, hi: int, bytes: int)
    requires Tracks(s, lo, hi) && !Settled(s, lo, hi, bytes)
    ensures var t := Record(s, lo, hi, bytes);
      Tracks(t, lo, hi) && Distance(t, lo, hi, bytes) < Distance(s, lo, hi, bytes)
  {
    RecordTracks(s, lo, hi, bytes);
    if Declines(s, bytes) {
      DeclineStaysAbove(s, lo, hi, bytes);
    } else if s.index > hi {
      Increasing(Max(0, hi - 2), hi + 1);
    }
  }

  /** The state after n reads of the same size. */
  function After(s: State, lo: int, hi: int, bytes: int, n: nat): State
    decreases n
  {
    if n == 0 then s else After(Record(s, lo, hi, bytes), lo, hi, bytes, n - 1)
  }

  lemma {:induction false} SettledForever(s: State, lo: int, hi: int, bytes: int, n: nat)
    requires Tracks(s, lo, hi) && Settled(s, lo, hi, bytes)
    ensures After(s, lo, hi, bytes, n).size == s.size && Settled(After(s, lo, hi, bytes, n), lo, hi, bytes)
    decreases n
  {
    if n > 0 {
      SettledStays(s, lo, hi, bytes);
      RecordTracks(s, lo, hi, bytes);
      SettledForever(Record(s, lo, hi, bytes), lo, hi, bytes, n - 1);
    }
  }

  /** Constant reads reach, in at most 3 * (hi - lo) + 3 of them, a size that never changes again. */
  lemma {:induction false} Converges(s: State, lo: int, hi: int, bytes: int, n: nat)
    requires Tracks(s, lo, hi) && n >= Distance(s, lo, hi, bytes)
    ensures Tracks(After(s, lo, hi, bytes, n), lo, hi) && Settled(After(s, lo, hi, bytes, n), lo, hi, bytes)
    ensures forall m: nat :: m >= n ==> After(s, lo, hi, bytes, m).size == After(s, lo, hi, bytes, n).size
    decreases n
  {
    var t := Record(s, lo, hi, bytes);
    RecordTracks(s, lo, hi, bytes);
    if Settled(s, lo, hi, bytes) {
      SettledStays(s, lo, hi, bytes);
      forall m: nat
        ensures After(s, lo, hi, bytes, m).size == s.size && Settled(After(s, lo, hi, bytes, m), lo, hi, bytes)
      {
        SettledForever(s, lo, hi, bytes, m);
      }
      AfterTracks(s, lo, hi, bytes, n);
    } else {
      Approaches(s, lo, hi, bytes);
      Converges(t, lo, hi, bytes, n - 1);
      forall m: nat | m >= n
        ensures After(s, lo, hi, bytes, m).size == After(s, lo, hi, bytes, n).size
      {
        assert After(s, lo, hi, bytes, m) == After(t, lo, hi, bytes, m - 1);
      }
    }
  }

  lemma {:induction false} AfterTracks(s: State, lo: int, hi: int, bytes: int, n: nat)
    requires Tracks(s, lo, hi)
    ensures Tracks(After(s, lo, hi, bytes, n), lo, hi)
    decreases n
  {
    if n > 0 {
      RecordTracks(s, lo, hi, bytes);
      AfterTracks(Record(s, lo, hi, bytes), lo, hi, bytes, n - 1);
    }
  }

  /** Once reads of one size are too small for the buffer, no later read of that size makes it grow. */
  lemma {:induction false} NoGrowthAfterDecline(s: State, lo: int, hi: int, bytes: int, n: nat)
    requires Tracks(s, lo, hi) && !Grows(s, bytes)
    ensures !Grows(After(s, lo, hi, bytes, n), bytes)
    decreases n
  {
    if n > 0 {
      RecordTracks(s, lo, hi, bytes);
      if Declines(s, bytes) {
        DeclineStaysAbove(s, lo, hi, bytes);
      }
      NoGrowthAfterDecline(Record(s, lo, hi, bytes), lo, hi, bytes, n - 1);
    }
  }

  // ----- The speed of the walk -----

  /** The state after the given reads. */
  function Reads(s: State, lo: int, hi: int, received: seq<int>): State {
    if received == [] then s
    else Record(Reads(s, lo, hi, received[..|received| - 1]), lo, hi, received[|received| - 1])
  }

  /** Every read fills the size it was given. Sixteen bytes in the smallest buffer do not count as filling it. */
  ghost predicate AllFull(s: State, lo: int, hi: int, received: seq<int>) {
    forall k :: 0 <= k < |received| ==> received[k] > 16 && received[k] >= Reads(s, lo, hi, received[..k]).size
  }

  /** Every read would have fitted two entries below the current one. */
  ghost predicate AllSmall(s: State, lo: int, hi: int, received: seq<int>) {
    forall k :: 0 <= k < |received| ==> received[k] <= Clamped(Reads(s, lo, hi, received[..k]).index - 2)
  }

  lemma {:induction false} ReadsTrack(s: State, lo: int, hi: int, received: seq<int>)
    requires Tracks(s, lo, hi)
    ensures Tracks(Reads(s, lo, hi, received), lo, hi)
  {
    if received != [] {
      var n := |received| - 1;
      ReadsTrack(s, lo, hi, received[..n]);
      RecordTracks(Reads(s, lo, hi, received[..n]), lo, hi, received[n]);
    }
  }

  /** Every prefix of the reads leads to the states it leads to within them. */
  lemma Before(s: State, lo: int, hi: int, received: seq<int>)
    requires received != []
    ensures var init := received[..|received| - 1];
      && (AllFull(s, lo, hi, received) ==> AllFull(s, lo, hi, init))
      && (AllSmall(s, lo, hi, received) ==> AllSmall(s, lo, hi, init))
  {
    var init := received[..|received| - 1];
    forall k | 0 <= k < |init|
      ensures init[k] == received[k] && Reads(s, lo, hi, init[..k]) == Reads(s, lo, hi, received[..k])
    {
      assert init[..k] == received[..k];
    }
  }

  /** n reads that each fill the buffer take the index four entries further each, up to the maximum. */
  lemma {:induction false} FullReads(s: State, lo: int, hi: int, received: seq<int>)
    requires Tracks(s, lo, hi) && AllFull(s, lo, hi, received)
    ensures var t := Reads(s, lo, hi, received);
      && t.index == (if received == [] then s.index else Min(s.index + 4 * |received|, hi))
      && t.size == Size(t.index)
      && (received != [] ==> !t.decreaseNow)
  {
    ReadsTrack(s, lo, hi, received);
    if received != [] {
      var n := |received| - 1;
      var u := Reads(s, lo, hi, received[..n]);
      ReadsTrack(s, lo, hi, received[..n]);
      Before(s, lo, hi, received);
      FullReads(s, lo, hi, received[..n]);
      if u.index >= 2 {
        Increasing(u.index - 2, u.index);
      }
    }
  }

  /** t is what the given number of small reads makes of an index: every second read takes it one entry down, and
      an odd one is noted without any other change. */
  ghost predicate Lowered(t: State, index: int, lo: int, noted: nat) {
    && t.index == (if noted < 2 then index else Max(index - noted / 2, lo))
    && t.size == Size(Max(t.index, 0))
    && (t.decreaseNow <==> noted % 2 == 1)
  }

  lemma SmallRead(s: State, lo: int, hi: int, bytes: int, index: int, noted: nat)
    requires Tracks(s, lo, hi) && bytes <= Clamped(s.index - 2)
    requires Lowered(s, index, lo, noted)
    ensures Lowered(Record(s, lo, hi, bytes), index, lo, noted + 1)
  {
    assert noted % 2 == 1 ==> (noted + 1) / 2 == noted / 2 + 1;
    assert noted % 2 == 0 ==> (noted + 1) / 2 == noted / 2;
  }

  lemma {:induction false} SmallReads(s: State, lo: int, hi: int, received: seq<int>, noted: nat)
    requires Tracks(s, lo, hi) && AllSmall(s, lo, hi, received)
    requires noted == |received| + if s.decreaseNow then 1 else 0
    ensures Lowered(Reads(s, lo, hi, received), s.index, lo, noted)
  {
    if received != [] {
      var n := |received| - 1;
      var u := Reads(s, lo, hi, received[..n]);
      Before(s, lo, hi, received);
      SmallReads(s, lo, hi, received[..n], noted - 1);
      ReadsTrack(s, lo, hi, received[..n]);
      SmallRead(u, lo, hi, received[n], s.index, noted - 1);
    }
  }

  /** Reads that neither fill the buffer nor fit two entries below change nothing, not even a decline already noted. */
  lemma {:induction false} MiddleReads(s: State, lo: int, hi: int, received: seq<int>)
    requires Tracks(s, lo, hi)
    requires forall k :: 0 <= k < |received| ==> Clamped(s.index - 2) < received[k] < s.size
    ensures Reads(s, lo, hi, received) == s
  {
    if received != [] {
      MiddleReads(s, lo, hi, received[..|received| - 1]);
    }
  }

  /** Two reads of nothing for every entry down. */
  lemma {:induction false} EmptyReads(s: State, lo: int, hi: int, received: seq<int>, n: nat)
    requires Tracks(s, lo, hi) && !s.decreaseNow && |received| == 2 * n
    requires forall k :: 0 <= k < |received| ==> received[k] == 0
    ensures var t := Reads(s, lo, hi, received);
      t.index == (if n == 0 then s.index else Max(s.index - n, lo)) && t.size == Size(t.index)
  {
    SmallReads(s, lo, hi, received, 2 * n);
  }

  /** A read that fills its buffer counts as small exactly when the buffer is the smallest and the read no larger. */
  lemma FullReadDeclinesIff(s: State, lo: int, hi: int, bytes: int)
    requires Tracks(s, lo, hi) && bytes >= s.size
    ensures bytes <= Clamped(Max(0, s.index - 2)) <==> s.index == 0 && bytes == 16
  {
    if s.index >= 1 {
      Increasing(Max(0, s.index - 2), s.index);
    }
  }

  /** Reads of sixteen bytes fill the smallest buffer, yet they never make it grow. */
  lemma {:induction false} SmallestNeverGrows(s: State, hi: int, n: nat)
    requires Tracks(s, 0, hi) && s.index == 0
    ensures s.size == 16 && After(s, 0, hi, 16, n).index == 0
    decreases n
  {
    if n > 0 {
      RecordTracks(s, 0, hi, 16);
      SmallestNeverGrows(Record(s, 0, hi, 16), hi, n - 1);
    }
  }

  /** The default arguments 1024, 8192 and 65536: one full read takes a new handle to the maximum, and twelve
      empty ones from there to the minimum. */
  lemma DefaultSizes(b: Bounds)
    requires Delimits(b, 1024, 65536) && b.initial == 8192
    ensures b.minIndex == 32 && b.maxIndex == 38 && Search(0, ENTRIES - 1, b.initial) == 35
    ensures Size(32) == 1024 && Size(35) == 8192 && Size(38) == 65536
    ensures var full := Reads(State(35, 8192, false), 32, 38, [8192]);
      full == State(38, 65536, false) && Reads(full, 32, 38, seq(12, i => 0)) == State(32, 1024, false)
  {
    DefaultIndices(b);
    var start := State(35, 8192, false);
    assert [8192][..0] == [];
    FullReads(start, 32, 38, [8192]);
    var full := Reads(start, 32, 38, [8192]);
    SmallReads(full, 32, 38, seq(12, i => 0), 12);
  }

  lemma DefaultIndices(b: Bounds)
    requires Delimits(b, 1024, 65536)
    ensures b.minIndex == 32 && b.maxIndex == 38 && Search(0, ENTRIES - 1, 8192) == 35
    ensures Size(32) == 1024 && Size(35) == 8192 && Size(38) == 65536
  {
    TableSizes();
    assert Size(32) == 2 * Size(31) && Size(33) == 2 * Size(32) && Size(34) == 2 * Size(33);
    assert Size(35) == 2 * Size(34) && Size(36) == 2 * Size(35) && Size(37) == 2 * Size(36);
    assert Size(38) == 2 * Size(37) && Size(39) == 2 * Size(38);
    SearchIsNear(0, ENTRIES - 1, 8192);
    NearIsExact(Search(0, ENTRIES - 1, 8192), 35);
  }

  // ----- The first guess -----

  /** size lies behind entry k and before entry k + 1; -1 is the gap below the table. */
  ghost predicate InGap(k: int, size: int) {
    -1 <= k < ENTRIES && (k >= 0 ==> Size(k) < size) && (k + 1 < ENTRIES ==> size < Size(k + 1))
  }

  /** The search for a size of the gap k, without the size. */
  function SearchGap(low: int, high: int, k: int): int
    requires 0 <= low <= high + 1 <= ENTRIES && low < ENTRIES
    decreases high - low
  {
    if low >= high then low
    else
      var mid := (low + high) / 2;
      if k < mid then SearchGap(low, mid - 1, k)
      else if k > mid then SearchGap(mid + 1, high, k)
      else mid + 1
  }

  lemma {:induction false} SearchInGap(low: int, high: int, k: int, size: int)
    requires 0 <= low <= high + 1 <= ENTRIES && low < ENTRIES && InGap(k, size)
    ensures Search(low, high, size) == SearchGap(low, high, k)
    decreases high - low
  {
    if low < high {
      var mid := (low + high) / 2;
      GapSide(k, size, mid);
      GapSide(k, size, mid + 1);
      if k < mid {
        SearchInGap(low, mid - 1, k, size);
      } else if k > mid {
        SearchInGap(mid + 1, high, k, size);
      }
    }
  }

  lemma GapSide(k: int, size: int, j: nat)
    requires InGap(k, size) && j < ENTRIES
    ensures if j <= k then Size(j) < size else size < Size(j)
  {
    if j < k {
      Increasing(j, k);
    } else if j > k + 1 {
      Increasing(k + 1, j);
    }
  }

  /** The gaps whose sizes the search rounds down to the entry below; it rounds all others up. */
  predicate RoundsDown(k: int) {
    k in {1, 4, 7, 9, 11, 14, 16, 18, 21, 23, 25, 28, 31, 34, 36, 38, 41, 43, 45, 48, 50, 52}
  }

  lemma GapTable(k: int)
    requires -1 <= k < ENTRIES
    ensures SearchGap(0, ENTRIES - 1, k) == if RoundsDown(k) then k else k + 1
  {
    if k < 26 {
      assert SearchGap(0, 52, k) == SearchGap(0, 25, k);
      LowGaps(k);
    } else if k > 26 {
      assert SearchGap(0, 52, k) == SearchGap(27, 52, k);
      HighGaps(k);
    }
  }

  lemma LowGaps(k: int)
    requires -1 <= k < 26
    ensures SearchGap(0, 25, k) == if RoundsDown(k) then k else k + 1
  {
    if k < 12 {
      assert SearchGap(0, 25, k) == SearchGap(0, 11, k);
      assert SearchGap(0, 11, k) == if k < 5 then SearchGap(0, 4, k) else if k > 5 then SearchGap(6, 11, k) else 6;
    } else if k > 12 {
      assert SearchGap(0, 25, k) == SearchGap(13, 25, k);
      assert SearchGap(13, 25, k) ==
        if k < 19 then SearchGap(13, 18, k) else if k > 19 then SearchGap(20, 25, k) else 20;
    }
  }

  lemma HighGaps(k: int)
    requires 26 < k < ENTRIES
    ensures SearchGap(27, 52, k) == if RoundsDown(k) then k else k + 1
  {
    if k < 39 {
      assert SearchGap(27, 52, k) == SearchGap(27, 38, k);
      Gaps27(k);
    } else if k > 39 {
      assert SearchGap(27, 52, k) == SearchGap(40, 52, k);
      Gaps40(k);
    }
  }

  lemma Gaps27(k: int)
    requires 27 <= k < 39
    ensures SearchGap(27, 38, k) == if RoundsDown(k) then k else k + 1
  {
    if k < 32 {
      assert SearchGap(27, 38, k) == SearchGap(27, 31, k);
    } else if k > 32 {
      assert SearchGap(27, 38, k) == SearchGap(33, 38, k);
    }
  }

  lemma Gaps40(k: int)
    requires 40 <= k < ENTRIES
    ensures SearchGap(40, 52, k) == if RoundsDown(k) then k else k + 1
  {
    if k < 46 {
      assert SearchGap(40, 52, k) == SearchGap(40, 45, k);
    } else if k > 46 {
      assert SearchGap(40, 52, k) == SearchGap(47, 52, k);
    }
  }

  /** A size of the table is found as it is; any other is rounded in the direction of its gap. */
  lemma FirstGuess(k: int, size: int)
    requires InGap(k, size) || (0 <= k < ENTRIES && size == Size(k))
    ensures Search(0, ENTRIES - 1, size) == if InGap(k, size) && !RoundsDown(k) then k + 1 else k
    ensures k == -1 ==> !RoundsDown(k)
  {
    if InGap(k, size) {
      SearchInGap(0, ENTRIES - 1, k, size);
      GapTable(k);
    } else {
      SearchIsNear(0, ENTRIES - 1, size);
      NearIsExact(Search(0, ENTRIES - 1, size), k);
    }
  }

  /** With initial at entry k or in the gap behind it, the first guess lies between minimum and maximum exactly when
      initial is entry k, or the gap is rounded down and entry k is not below minimum, or it is rounded up and
      entry k + 1 is not above maximum. */
  lemma FirstGuessInBoundsIff(b: Bounds, minimum: int, maximum: int, k: int)
    requires Delimits(b, minimum, maximum) && 0 < minimum <= b.initial <= maximum
    requires InGap(k, b.initial) || (0 <= k < ENTRIES && b.initial == Size(k))
    ensures minimum <= Clamped(Search(0, ENTRIES - 1, b.initial)) <= maximum <==>
      !InGap(k, b.initial) || (if RoundsDown(k) then k + 1 != b.minIndex else k != b.maxIndex)
  {
    FirstGuess(k, b.initial);
    assert k >= 0 ==> (Size(k) < minimum <==> k < b.minIndex) && (Size(k) <= maximum <==> k <= b.maxIndex);
    assert k + 1 < ENTRIES ==>
      (Size(k + 1) < minimum <==> k + 1 < b.minIndex) && (Size(k + 1) <= maximum <==> k + 1 <= b.maxIndex);
  }

  /** The first guess can exceed the maximum: with 16, 3000, 3000 it is 4096. */
  lemma FirstGuessAboveMaximum()
    ensures Clamped(Search(0, ENTRIES - 1, 3000)) == 4096
  {
    Pow2Table();
    assert Pow2(11) == 2048 && Pow2(12) == 4096 && Pow2(13) == 8192 by {
      assert Pow2(11) == 2 * Pow2(10) && Pow2(12) == 2 * Pow2(11) && Pow2(13) == 2 * Pow2(12);
    }
    assert Size(32) == 1024 && Size(33) == 2048 && Size(34) == 4096 && Size(35) == 8192;
    Increasing(35, 39);
    assert Search(0, 52, 3000) == Search(27, 52, 3000) == Search(27, 38, 3000);
    assert Search(27, 38, 3000) == Search(33, 38, 3000) == Search(33, 34, 3000) == 34;
  }
}
