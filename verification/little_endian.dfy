/** Bytes, fixed-width unsigned integers, and the little-endian byte order used by
    `u16::from_le_bytes`, `u32::from_le_bytes` and `u64::from_le_bytes`. */
module LittleEndian {

  type Byte = b: int | 0 <= b < 0x100
  type U16 = x: int | 0 <= x < 0x1_0000
  type U32 = x: int | 0 <= x < 0x1_0000_0000
  type U64 = x: int | 0 <= x < 0x1_0000_0000_0000_0000

  /** 256 to the power n: one more than the largest value n bytes can hold. */
  function Pow256(n: nat): (p: nat)
    ensures p > 0
  {
    if n == 0 then 1 else 0x100 * Pow256(n - 1)
  }

  lemma Pow256Widths()
    ensures Pow256(2) == 0x1_0000
    ensures Pow256(4) == 0x1_0000_0000
    ensures Pow256(8) == 0x1_0000_0000_0000_0000
  {
    assert Pow256(1) == 0x100;
    assert Pow256(2) == 0x1_0000;
    assert Pow256(3) == 0x100_0000;
    assert Pow256(4) == 0x1_0000_0000;
    assert Pow256(5) == 0x100_0000_0000;
    assert Pow256(6) == 0x1_0000_0000_0000;
    assert Pow256(7) == 0x100_0000_0000_0000;
  }

  /** The value of a little-endian byte string: the sum of s[i] * 256^i.
      An n-byte string always denotes a value below 256^n. */
  function FromLE(s: seq<Byte>): (v: nat)
    ensures v < Pow256(|s|)
  {
    if s == [] then 0
    else
      var high := FromLE(s[1..]);
      assert high <= Pow256(|s| - 1) - 1;
      s[0] + 0x100 * high
  }

  /** The n-byte little-endian representation of v (v taken modulo 256^n). */
  function ToLE(v: nat, n: nat): (s: seq<Byte>)
    ensures |s| == n
  {
    if n == 0 then [] else [v % 0x100] + ToLE(v / 0x100, n - 1)
  }

  /** Writing a value that fits in n bytes and reading it back gives the value. */
  lemma {:induction false} FromToLE(v: nat, n: nat)
    requires v < Pow256(n)
    ensures FromLE(ToLE(v, n)) == v
  {
    if n > 0 {
      var s := ToLE(v, n);
      assert s[1..] == ToLE(v / 0x100, n - 1);
      assert v / 0x100 < Pow256(n - 1);
      FromToLE(v / 0x100, n - 1);
    }
  }

  /** Reading n bytes and writing the value back gives the same n bytes. */
  lemma {:induction false} ToFromLE(s: seq<Byte>)
    ensures ToLE(FromLE(s), |s|) == s
  {
    if s != [] {
      var high := FromLE(s[1..]);
      assert (s[0] + 0x100 * high) % 0x100 == s[0];
      assert (s[0] + 0x100 * high) / 0x100 == high;
      ToFromLE(s[1..]);
    }
  }

  /** The value of two byte strings one after the other: the first supplies
      the low-order bytes. */
  lemma {:induction false} FromLEAppend(a: seq<Byte>, b: seq<Byte>)
    ensures FromLE(a + b) == FromLE(a) + Pow256(|a|) * FromLE(b)
  {
    if a == [] {
      assert a + b == b;
    } else {
      var t := a[1..];
      assert (a + b)[0] == a[0] && (a + b)[1..] == t + b;
      FromLEAppend(t, b);
      var p, x, y := Pow256(|t|), FromLE(t), FromLE(b);
      assert FromLE(a + b) == a[0] + 0x100 * (x + p * y);
      ScaleSum(x, p, y);
    }
  }

  lemma ScaleSum(x: int, p: int, y: int)
    ensures 0x100 * (x + p * y) == 0x100 * x + (0x100 * p) * y
  {
  }

  /** The little-endian u16, u32 and u64 fields of a byte string at a given
      offset. */
  function U16At(s: seq<Byte>, off: nat): (v: U16)
    requires off + 2 <= |s|
  {
    Pow256Widths();
    FromLE(s[off..off + 2])
  }

  function U32At(s: seq<Byte>, off: nat): (v: U32)
    requires off + 4 <= |s|
  {
    Pow256Widths();
    FromLE(s[off..off + 4])
  }

  function U64At(s: seq<Byte>, off: nat): (v: U64)
    requires off + 8 <= |s|
  {
    Pow256Widths();
    FromLE(s[off..off + 8])
  }

  /** A u16 field is its low byte plus 256 times its high byte. */
  lemma U16AtBytes(s: seq<Byte>, off: nat)
    requires off + 2 <= |s|
    ensures U16At(s, off) == s[off] as int + 0x100 * s[off + 1] as int
  {
    var f := s[off..off + 2];
    assert f[1..][1..] == [];
    assert FromLE(f[1..]) == f[1];
  }

  /** A u32 field is its low u16 half plus 2^16 times its high half. */
  lemma U32AtHalves(s: seq<Byte>, off: nat)
    requires off + 4 <= |s|
    ensures U32At(s, off) == U16At(s, off) as int + 0x1_0000 * U16At(s, off + 2) as int
  {
    assert s[off..off + 4] == s[off..off + 2] + s[off + 2..off + 4];
    FromLEAppend(s[off..off + 2], s[off + 2..off + 4]);
    Pow256Widths();
  }

  /** A u64 field is its low u32 half plus 2^32 times its high half. */
  lemma U64AtHalves(s: seq<Byte>, off: nat)
    requires off + 8 <= |s|
    ensures U64At(s, off) == U32At(s, off) as int + 0x1_0000_0000 * U32At(s, off + 4) as int
  {
    assert s[off..off + 8] == s[off..off + 4] + s[off + 4..off + 8];
    FromLEAppend(s[off..off + 4], s[off + 4..off + 8]);
    Pow256Widths();
  }
}
