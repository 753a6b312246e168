/** The big-endian codecs of HeapCharBufUtil, over memory cells that hold char bit patterns. */
module HeapCharBufUtil {
  import opened Words

  // ----- Positional notation, the reference for every width -----

  function Pow256(n: nat): (r: int)
    ensures r >= 1
  {
    if n == 0 then 1 else 256 * Pow256(n - 1)
  }

  /** The low n bytes of v in two's complement, least significant last. */
  function ToBytes(v: int, n: nat): (s: seq<byte>)
    ensures |s| == n
    decreases n
  {
    if n == 0 then [] else ToBytes(v / 256, n - 1) + [v % 256]
  }

  function FromBytes(s: seq<byte>): (v: nat)
    ensures v < Pow256(|s|)
  {
    if s == [] then 0 else 256 * FromBytes(s[..|s| - 1]) + s[|s| - 1] as int
  }

  /** The signed reading of an n-byte unsigned number. */
  function Signed(u: int, n: nat): int {
    if 2 * u >= Pow256(n) then u - Pow256(n) else u
  }

  lemma Powers()
    ensures Pow256(1) == 0x100 && Pow256(2) == 0x1_0000 && Pow256(4) == 0x1_0000_0000
    ensures Pow256(8) == 0x1_0000_0000_0000_0000
  {
    assert Pow256(3) == 256 * Pow256(2);
    assert Pow256(5) == 256 * Pow256(4);
    assert Pow256(7) == 256 * Pow256(6);
  }

  lemma MultipleAtLeast(d: int, m: int)
    requires d >= 1 && m > 0
    ensures d * m >= m
  {
    assert d * m == (d - 1) * m + m;
  }

  lemma SmallMultiple(d: int, m: int)
    requires m > 0 && -m < d * m < m
    ensures d == 0
  {
    if d >= 1 {
      MultipleAtLeast(d, m);
    } else if d <= -1 {
      MultipleAtLeast(-d, m);
    }
  }

  lemma RemainderOf(v: int, m: int, k: int, r: int)
    requires m > 0 && 0 <= r < m && v == k * m + r
    ensures v % m == r
  {
    var d := v / m - k;
    assert v == m * (v / m) + v % m;
    assert d * m == m * (v / m) - k * m;
    SmallMultiple(d, m);
  }

  /** Writing v in n bytes and reading it back gives v modulo 256^n. */
  lemma {:induction false} FromToBytes(v: int, n: nat)
    ensures FromBytes(ToBytes(v, n)) == v % Pow256(n)
    decreases n
  {
    if n > 0 {
      var q := v / 256;
      FromToBytes(q, n - 1);
      assert ToBytes(v, n)[..n - 1] == ToBytes(q, n - 1);
      ModCons(v, q, Pow256(n - 1));
    }
  }

  lemma ModCons(v: int, q: int, p: int)
    requires p > 0 && q == v / 256
    ensures v % (256 * p) == 256 * (q % p) + v % 256
  {
    var k := q / p;
    assert q == p * k + q % p;
    assert 256 * (p * k) == k * (256 * p);
    RemainderOf(v, 256 * p, k, 256 * (q % p) + v % 256);
  }

  lemma QuotientTwice(v: int, p: int)
    requires p > 0
    ensures (v / 256) / p == v / (256 * p)
  {
    var q, m := v / 256, 256 * p;
    var k, r := q / p, 256 * (q % p) + v % 256;
    assert q == p * k + q % p;
    assert 256 * (p * k) == k * m;
    assert v == k * m + r && 0 <= r < m;
    RemainderOf(v, m, k, r);
    var d := v / m - k;
    assert v == m * (v / m) + v % m;
    assert d * m == m * (v / m) - k * m == 0;
    SmallMultiple(d, m);
  }

  /** Big-endian order: byte i of n has the weight 256^(n - 1 - i). */
  lemma {:induction false} ByteWeight(v: int, n: nat, i: nat)
    requires i < n
    ensures ToBytes(v, n)[i] == v / Pow256(n - 1 - i) % 256
    decreases n
  {
    if i < n - 1 {
      ByteWeight(v / 256, n - 1, i);
      QuotientTwice(v, Pow256(n - 2 - i));
    }
  }

  /** The first byte weighs most. */
  lemma {:induction false} LeadingByte(first: byte, s: seq<byte>)
    ensures FromBytes([first] + s) == first * Pow256(|s|) + FromBytes(s)
  {
    var t := [first] + s;
    if s == [] {
      assert t[..|t| - 1] == [];
    } else {
      var init := s[..|s| - 1];
      LeadingByte(first, init);
      assert t[..|t| - 1] == [first] + init;
      assert 256 * (first * Pow256(|init|)) == first * Pow256(|s|);
    }
  }

  lemma LastByte(x: int, last: byte)
    ensures (256 * x + last as int) / 256 == x && (256 * x + last as int) % 256 == last as int
  {
  }

  /** Reading bytes and writing the number back restores the bytes. */
  lemma {:induction false} ToFromBytes(s: seq<byte>)
    ensures ToBytes(FromBytes(s), |s|) == s
  {
    if s != [] {
      var init, last := s[..|s| - 1], s[|s| - 1];
      var x := FromBytes(init);
      ToFromBytes(init);
      LastByte(x, last);
      assert FromBytes(s) == 256 * x + last as int;
      assert ToBytes(FromBytes(s), |s|) == ToBytes(x, |init|) + [last];
      assert s == init + [last];
    }
  }

  /** Unsigned and signed values that fit n bytes survive a write and a read. */
  lemma {:induction false} ReadBack(v: int, n: nat)
    requires n > 0
    ensures 0 <= v < Pow256(n) ==> FromBytes(ToBytes(v, n)) == v
    ensures -Pow256(n) <= 2 * v < Pow256(n) ==> Signed(FromBytes(ToBytes(v, n)), n) == v
  {
    var m, u := Pow256(n), FromBytes(ToBytes(v, n));
    assert (0 <= v < m ==> u == v) && (-m <= v < 0 ==> u == v + m) by {
      FromToBytes(v, n);
      Representative(v, m);
    }
  }

  lemma Representative(v: int, m: int)
    requires m > 0
    ensures 0 <= v < m ==> v % m == v
    ensures -m <= v < 0 ==> v % m == v + m
  {
    if 0 <= v < m {
      RemainderOf(v, m, 0, v);
    } else if -m <= v < 0 {
      RemainderOf(v, m, -1, v + m);
    }
  }

  // ----- The getters: shift-and-or expressions over disjoint bit fields, so or is addition -----

  function U8(memory: seq<byte>, index: nat): int
    requires index < |memory|
  {
    memory[index] as int
  }

  /** char is signed on the x86-64 targets of the build. */
  function GetChar(memory: seq<byte>, index: nat): int
    requires index < |memory|
  {
    if U8(memory, index) >= 128 then U8(memory, index) - 256 else U8(memory, index)
  }

  function GetUShort(memory: seq<byte>, index: nat): int
    requires index + 2 <= |memory|
  {
    U8(memory, index) * 0x100 + U8(memory, index + 1)
  }

  function GetShort(memory: seq<byte>, index: nat): int
    requires index + 2 <= |memory|
  {
    var u := GetUShort(memory, index);
    if u >= 0x8000 then u - 0x1_0000 else u
  }

  function GetUInt(memory: seq<byte>, index: nat): int
    requires index + 4 <= |memory|
  {
    U8(memory, index) * 0x100_0000 + U8(memory, index + 1) * 0x1_0000 +
    U8(memory, index + 2) * 0x100 + U8(memory, index + 3)
  }

  function GetInt(memory: seq<byte>, index: nat): int
    requires index + 4 <= |memory|
  {
    ToInt32(GetUInt(memory, index))
  }

  function GetULong(memory: seq<byte>, index: nat): int
    requires index + 8 <= |memory|
  {
    U8(memory, index) * 0x100_0000_0000_0000 + U8(memory, index + 1) * 0x1_0000_0000_0000 +
    U8(memory, index + 2) * 0x100_0000_0000 + U8(memory, index + 3) * 0x1_0000_0000 +
    U8(memory, index + 4) * 0x100_0000 + U8(memory, index + 5) * 0x1_0000 +
    U8(memory, index + 6) * 0x100 + U8(memory, index + 7)
  }

  function GetLong(memory: seq<byte>, index: nat): int
    requires index + 8 <= |memory|
  {
    ToInt64(GetULong(memory, index))
  }

  lemma {:induction false} FromOne(s: seq<byte>)
    requires |s| == 1
    ensures FromBytes(s) == U8(s, 0)
  {
    assert s[..0] == [];
  }

  lemma {:induction false} FromTwo(s: seq<byte>)
    requires |s| == 2
    ensures FromBytes(s) == U8(s, 0) * 0x100 + U8(s, 1)
  {
    FromOne(s[..1]);
  }

  lemma {:induction false} FromFour(s: seq<byte>)
    requires |s| == 4
    ensures FromBytes(s) ==
      U8(s, 0) * 0x100_0000 + U8(s, 1) * 0x1_0000 + U8(s, 2) * 0x100 + U8(s, 3)
  {
    FromTwo(s[..2]);
    assert s[..3][..2] == s[..2];
    assert FromBytes(s[..3]) == 256 * FromBytes(s[..2]) + U8(s, 2);
  }

  lemma {:induction false} FromEight(s: seq<byte>)
    requires |s| == 8
    ensures FromBytes(s) == FromBytes(s[..4]) * 0x1_0000_0000 +
      U8(s, 4) * 0x100_0000 + U8(s, 5) * 0x1_0000 + U8(s, 6) * 0x100 + U8(s, 7)
  {
    assert s[..5][..4] == s[..4] && s[..6][..5] == s[..5] && s[..7][..6] == s[..6];
    assert FromBytes(s[..5]) == 256 * FromBytes(s[..4]) + U8(s, 4);
    assert FromBytes(s[..6]) == 256 * FromBytes(s[..5]) + U8(s, 5);
    assert FromBytes(s[..7]) == 256 * FromBytes(s[..6]) + U8(s, 6);
  }

  /** The unsigned getters read positional notation at the index; the signed ones its two's complement. */
  lemma {:induction false} GettersReadBytes(memory: seq<byte>, index: nat)
    ensures index + 1 <= |memory| ==> GetChar(memory, index) == Signed(FromBytes(memory[index..index + 1]), 1)
    ensures index + 2 <= |memory| ==>
      var u := FromBytes(memory[index..index + 2]);
      GetUShort(memory, index) == u && GetShort(memory, index) == Signed(u, 2)
    ensures index + 4 <= |memory| ==>
      var u := FromBytes(memory[index..index + 4]);
      GetUInt(memory, index) == u && GetInt(memory, index) == Signed(u, 4)
    ensures index + 8 <= |memory| ==>
      var u := FromBytes(memory[index..index + 8]);
      GetULong(memory, index) == u && GetLong(memory, index) == Signed(u, 8)
  {
    Powers();
    if index + 1 <= |memory| {
      FromOne(memory[index..index + 1]);
    }
    if index + 2 <= |memory| {
      FromTwo(memory[index..index + 2]);
    }
    if index + 4 <= |memory| {
      FromFour(memory[index..index + 4]);
    }
    if index + 8 <= |memory| {
      FromFour(memory[index..index + 8][..4]);
      FromEight(memory[index..index + 8]);
    }
  }

  // ----- The setters: one cell per byte; signed and unsigned overloads store the same bits -----

  method SetShort(memory: array<byte>, index: nat, value: int)
    requires index + 2 <= memory.Length
    modifies memory
    ensures memory[..] == old(memory[..index]) + ToBytes(value, 2) + old(memory[index + 2..])
  {
    memory[index] := (value / 0x100) % 256;
    memory[index + 1] := value % 256;
    TwoBytes(value);
  }

  method SetInt(memory: array<byte>, index: nat, value: int)
    requires index + 4 <= memory.Length
    modifies memory
    ensures memory[..] == old(memory[..index]) + ToBytes(value, 4) + old(memory[index + 4..])
  {
    memory[index] := (value / 0x100_0000) % 256;
    memory[index + 1] := (value / 0x1_0000) % 256;
    memory[index + 2] := (value / 0x100) % 256;
    memory[index + 3] := value % 256;
    FourBytes(value);
  }

  method SetLong(memory: array<byte>, index: nat, value: int)
    requires index + 8 <= memory.Length
    modifies memory
    ensures memory[..] == old(memory[..index]) + ToBytes(value, 8) + old(memory[index + 8..])
  {
    var b := EightBytes(value);
    memory[index] := (value / 0x100_0000_0000_0000) % 256;
    memory[index + 1] := (value / 0x1_0000_0000_0000) % 256;
    memory[index + 2] := (value / 0x100_0000_0000) % 256;
    memory[index + 3] := (value / 0x1_0000_0000) % 256;
    memory[index + 4] := (value / 0x100_0000) % 256;
    memory[index + 5] := (value / 0x1_0000) % 256;
    memory[index + 6] := (value / 0x100) % 256;
    memory[index + 7] := value % 256;
    assert memory[index..index + 8] == b;
    assert memory[..] == memory[..index] + memory[index..index + 8] + memory[index + 8..];
  }

  lemma {:induction false} TwoBytes(v: int)
    ensures ToBytes(v, 2) == [(v / 0x100) % 256, v % 256]
  {
    assert ToBytes(v / 256, 1) == ToBytes(v / 256 / 256, 0) + [(v / 256) % 256];
  }

  lemma {:induction false} FourBytes(v: int)
    ensures ToBytes(v, 4) == [(v / 0x100_0000) % 256, (v / 0x1_0000) % 256, (v / 0x100) % 256, v % 256]
  {
    var v' := v / 0x1_0000;
    TwoBytes(v');
    assert v' == v / 256 / 256;
    assert v' / 256 == v / 0x100_0000;
    assert ToBytes(v / 256, 3) == ToBytes(v', 2) + [(v / 256) % 256];
  }

  lemma {:induction false} EightBytes(v: int) returns (b: seq<byte>)
    ensures b == ToBytes(v, 8)
    ensures b[0] == (v / 0x100_0000_0000_0000) % 256 && b[1] == (v / 0x1_0000_0000_0000) % 256
    ensures b[2] == (v / 0x100_0000_0000) % 256 && b[3] == (v / 0x1_0000_0000) % 256
    ensures b[4] == (v / 0x100_0000) % 256 && b[5] == (v / 0x1_0000) % 256
    ensures b[6] == (v / 0x100) % 256 && b[7] == v % 256
  {
    b := ToBytes(v, 8);
    var v1 := v / 256;
    var v2 := v1 / 256;
    var v3 := v2 / 256;
    var v4 := v3 / 256;
    assert v2 == v / 0x1_0000;
    assert v3 == v / 0x100_0000;
    assert v4 == v / 0x1_0000_0000;
    FourBytes(v4);
    Quotients(v, v4);
    assert b == ToBytes(v1, 7) + [v % 256];
    assert ToBytes(v1, 7) == ToBytes(v2, 6) + [v1 % 256];
    assert ToBytes(v2, 6) == ToBytes(v3, 5) + [v2 % 256];
    assert ToBytes(v3, 5) == ToBytes(v4, 4) + [v3 % 256];
  }

  lemma Quotients(v: int, v4: int)
    requires v4 == v / 0x1_0000_0000
    ensures v4 / 0x100 == v / 0x100_0000_0000
    ensures v4 / 0x1_0000 == v / 0x1_0000_0000_0000
    ensures v4 / 0x100_0000 == v / 0x100_0000_0000_0000
  {
  }

  /** A get after a set at the same index returns the value, at every width, signed and unsigned. */
  lemma {:induction false} GetAfterSet(before: seq<byte>, after: seq<byte>, v: int)
    ensures
      var m := before + ToBytes(v, 2) + after;
      (0 <= v < 0x1_0000 ==> GetUShort(m, |before|) == v) && (-0x8000 <= v < 0x8000 ==> GetShort(m, |before|) == v)
    ensures
      var m := before + ToBytes(v, 4) + after;
      (0 <= v < 0x1_0000_0000 ==> GetUInt(m, |before|) == v) &&
      (-0x8000_0000 <= v < 0x8000_0000 ==> GetInt(m, |before|) == v)
    ensures
      var m := before + ToBytes(v, 8) + after;
      (0 <= v < 0x1_0000_0000_0000_0000 ==> GetULong(m, |before|) == v) &&
      (-0x8000_0000_0000_0000 <= v < 0x8000_0000_0000_0000 ==> GetLong(m, |before|) == v)
  {
    Powers();
    FieldReadsBack(before, after, v, 2);
    FieldReadsBack(before, after, v, 4);
    FieldReadsBack(before, after, v, 8);
  }

  lemma FieldReadsBack(before: seq<byte>, after: seq<byte>, v: int, n: nat)
    requires n in {2, 4, 8}
    ensures
      var m := before + ToBytes(v, n) + after;
      var u := FromBytes(ToBytes(v, n));
      (n == 2 ==> GetUShort(m, |before|) == u && GetShort(m, |before|) == Signed(u, 2)) &&
      (n == 4 ==> GetUInt(m, |before|) == u && GetInt(m, |before|) == Signed(u, 4)) &&
      (n == 8 ==> GetULong(m, |before|) == u && GetLong(m, |before|) == Signed(u, 8))
    ensures 0 <= v < Pow256(n) ==> FromBytes(ToBytes(v, n)) == v
    ensures -Pow256(n) <= 2 * v < Pow256(n) ==> Signed(FromBytes(ToBytes(v, n)), n) == v
  {
    var m := before + ToBytes(v, n) + after;
    assert m[|before|..|before| + n] == ToBytes(v, n);
    GettersReadBytes(m, |before|);
    ReadBack(v, n);
  }

  /** A set of what a get returned leaves the whole memory as it was. */
  lemma {:induction false} SetAfterGet(memory: seq<byte>, index: nat)
    ensures index + 2 <= |memory| ==>
      var keep := memory[..index] + ToBytes(GetUShort(memory, index), 2) + memory[index + 2..];
      keep == memory && ToBytes(GetShort(memory, index), 2) == ToBytes(GetUShort(memory, index), 2)
    ensures index + 4 <= |memory| ==>
      var keep := memory[..index] + ToBytes(GetUInt(memory, index), 4) + memory[index + 4..];
      keep == memory && ToBytes(GetInt(memory, index), 4) == ToBytes(GetUInt(memory, index), 4)
    ensures index + 8 <= |memory| ==>
      var keep := memory[..index] + ToBytes(GetULong(memory, index), 8) + memory[index + 8..];
      keep == memory && ToBytes(GetLong(memory, index), 8) == ToBytes(GetULong(memory, index), 8)
  {
    GettersReadBytes(memory, index);
    if index + 2 <= |memory| {
      FieldRestored(memory, index, 2);
    }
    if index + 4 <= |memory| {
      FieldRestored(memory, index, 4);
    }
    if index + 8 <= |memory| {
      FieldRestored(memory, index, 8);
    }
  }

  lemma {:induction false} FieldRestored(memory: seq<byte>, index: nat, n: nat)
    requires index + n <= |memory|
    ensures
      var u := FromBytes(memory[index..index + n]);
      memory[..index] + ToBytes(u, n) + memory[index + n..] == memory && ToBytes(Signed(u, n), n) == ToBytes(u, n)
  {
    ToFromBytes(memory[index..index + n]);
    SignedSameBytes(FromBytes(memory[index..index + n]), n);
    assert memory == memory[..index] + memory[index..index + n] + memory[index + n..];
  }

  lemma {:induction false} SignedSameBytes(u: int, n: nat)
    ensures ToBytes(Signed(u, n), n) == ToBytes(u, n)
  {
    ShiftByModulus(u, n);
  }

  lemma {:induction false} ShiftByModulus(u: int, n: nat)
    ensures ToBytes(u - Pow256(n), n) == ToBytes(u, n)
    decreases n
  {
    if n > 0 {
      var p := Pow256(n - 1);
      ShiftByModulus(u / 256, n - 1);
      assert (u - 256 * p) / 256 == u / 256 - p && (u - 256 * p) % 256 == u % 256;
    }
  }
}
