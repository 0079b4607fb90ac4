/** Bytes, fixed-width unsigned integers, little-endian decoding and alignment:
    the vocabulary shared by the header model and the record walkers. */
module Bytes {

  type byte = b: int | 0 <= b < 0x100
  type u16 = n: int | 0 <= n < 0x1_0000
  type u32 = n: int | 0 <= n < 0x1_0000_0000
  type u64 = n: int | 0 <= n < 0x1_0000_0000_0000_0000

  /** 256 to the power n: one more than the largest n-byte unsigned integer. */
  function Pow256(n: nat): (r: nat)
    ensures r > 0
  {
    if n == 0 then 1 else 256 * Pow256(n - 1)
  }

  lemma Pow256Widths()
    ensures Pow256(1) == 0x100
    ensures Pow256(2) == 0x1_0000
    ensures Pow256(4) == 0x1_0000_0000
    ensures Pow256(8) == 0x1_0000_0000_0000_0000
  {
  }

  /** The unsigned integer whose little-endian encoding is s (least significant byte first). */
  function LeUint(s: seq<byte>): (r: nat)
    ensures r < Pow256(|s|)
  {
    if s == [] then 0 else s[0] + 256 * LeUint(s[1..])
  }

  /** The n-byte little-endian encoding of x. */
  function LeBytes(x: nat, n: nat): (r: seq<byte>)
    requires x < Pow256(n)
    ensures |r| == n
    ensures LeUint(r) == x
  {
    if n == 0 then []
    else
      var r := [(x % 256) as byte] + LeBytes(x / 256, n - 1);
      assert r[1..] == LeBytes(x / 256, n - 1);
      r
  }

  /** Decoding then re-encoding gives back the same bytes: no two byte strings of one
      length decode to the same integer. */
  lemma {:induction false} LeBytesOfLeUint(s: seq<byte>)
    ensures LeBytes(LeUint(s), |s|) == s
  {
    if s != [] {
      LeBytesOfLeUint(s[1..]);
      assert LeUint(s) % 256 == s[0];
      assert LeUint(s) / 256 == LeUint(s[1..]);
    }
  }

  function LeU16(s: seq<byte>): (r: u16)
    requires |s| == 2
  {
    Pow256Widths();
    LeUint(s)
  }

  function LeU32(s: seq<byte>): (r: u32)
    requires |s| == 4
  {
    Pow256Widths();
    LeUint(s)
  }

  function LeU64(s: seq<byte>): (r: u64)
    requires |s| == 8
  {
    Pow256Widths();
    LeUint(s)
  }

  /** The little-endian u32 stored at data[p..p+4], written out byte by byte. */
  function U32At(data: seq<byte>, p: nat): u32
    requires p + 4 <= |data|
  {
    data[p] as int + 0x100 * data[p + 1] as int + 0x1_0000 * data[p + 2] as int + 0x100_0000 * data[p + 3] as int
  }

  /** U32At is the little-endian decoding of the four bytes at p. */
  lemma U32AtIsLe(data: seq<byte>, p: nat)
    requires p + 4 <= |data|
    ensures U32At(data, p) == LeU32(data[p..p + 4])
  {
    var s := data[p..p + 4];
    assert s[1..][1..][1..][1..] == [];
    assert LeUint(s[1..][1..][1..]) == data[p + 3];
    assert LeUint(s[1..][1..]) == data[p + 2] + 0x100 * data[p + 3] as int;
    assert LeUint(s[1..]) == data[p + 1] + 0x100 * data[p + 2] as int + 0x1_0000 * data[p + 3] as int;
  }

  /** The four little-endian bytes of a u32. */
  function U32Bytes(x: u32): (b: seq<byte>)
    ensures |b| == 4
  {
    [x % 0x100, x / 0x100 % 0x100, x / 0x1_0000 % 0x100, x / 0x100_0000]
  }

  /** Reading back the four bytes written by U32Bytes gives the same u32. */
  lemma U32AtOfBytes(data: seq<byte>, p: nat, x: u32)
    requires p + 4 <= |data| && data[p..p + 4] == U32Bytes(x)
    ensures U32At(data, p) == x
  {
    assert data[p] == data[p..p + 4][0];
    assert data[p + 1] == data[p..p + 4][1];
    assert data[p + 2] == data[p..p + 4][2];
    assert data[p + 3] == data[p..p + 4][3];
    U32Digits(x);
  }

  /** A u32 is the sum of its four base-256 digits. */
  lemma U32Digits(x: u32)
    ensures x % 0x100 + 0x100 * (x / 0x100 % 0x100) + 0x1_0000 * (x / 0x1_0000 % 0x100) + 0x100_0000 * (x / 0x100_0000) == x
  {
    var a := x / 0x100;
    var b := a / 0x100;
    var c := b / 0x100;
    assert x == x % 0x100 + 0x100 * a;
    assert a == a % 0x100 + 0x100 * b;
    assert b == b % 0x100 + 0x100 * c;
    assert b == x / 0x1_0000;
    assert c == x / 0x100_0000;
  }

  /** Where `data` holds `piece` at offset j. */
  predicate HoldsAt(data: seq<byte>, j: nat, piece: seq<byte>) {
    j + |piece| <= |data| && data[j .. j + |piece|] == piece
  }

  /** Holding a concatenation is holding each part, one after the other. */
  lemma HoldsConcat(data: seq<byte>, j: nat, a: seq<byte>, b: seq<byte>)
    requires HoldsAt(data, j, a + b)
    ensures HoldsAt(data, j, a) && HoldsAt(data, j + |a|, b)
  {
    assert data[j .. j + |a|] == (a + b)[..|a|];
    assert data[j + |a| .. j + |a| + |b|] == (a + b)[|a|..];
  }

  /** A sequence holds its own prefix at offset 0. */
  lemma HoldsPrefix(a: seq<byte>, b: seq<byte>)
    ensures HoldsAt(a + b, 0, a)
  {
    assert (a + b)[0 .. |a|] == a;
  }

  /** A two-byte slice lists its two bytes. */
  lemma SlicePair(s: seq<byte>, i: nat)
    requires i + 2 <= |s|
    ensures s[i .. i + 2] == [s[i], s[i + 1]]
  {
  }

  /** A slice is the concatenation of its two halves at any cut. */
  lemma SliceSplit(s: seq<byte>, i: nat, j: nat, k: nat)
    requires i <= j <= k <= |s|
    ensures s[i..k] == s[i..j] + s[j..k]
  {
  }

  /** The least multiple of a that is at least n, for a power-of-two alignment a;
      `(n + 3) & !3` in the source is AlignUp(n, 4). */
  function AlignUp(n: nat, a: nat): (r: nat)
    requires a == 1 || a == 2 || a == 4 || a == 8
    ensures r % a == 0
    ensures n <= r < n + a
  {
    (n + a - 1) - (n + a - 1) % a
  }

  /** Aligning commutes with an offset that is itself aligned. */
  lemma AlignUpShift(p: nat, n: nat)
    requires p % 4 == 0
    ensures AlignUp(p + n, 4) == p + AlignUp(n, 4)
  {
  }
}
