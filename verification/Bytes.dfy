/** Fixed-width integers and their little-endian byte encodings, as `to_le_bytes`
    and `from_le_bytes` compute them on the two ends of the bridge. */
module Bytes {
  import opened Basics

  type u8 = x: int | 0 <= x < 0x100
  type u32 = x: int | 0 <= x < 0x1_0000_0000
  type u64 = x: int | 0 <= x < 0x1_0000_0000_0000_0000
  type i32 = x: int | -0x8000_0000 <= x < 0x8000_0000

  const TWO_32: int := 0x1_0000_0000
  const TWO_64: int := 0x1_0000_0000_0000_0000

  function Pow256(k: nat): (p: nat)
    ensures p > 0
  {
    if k == 0 then 1 else 256 * Pow256(k - 1)
  }

  /** Byte `i` of `n`, counting from the least significant. */
  function ByteOf(n: nat, i: nat): (b: u8) {
    if i == 0 then n % 256 else ByteOf(n / 256, i - 1)
  }

  /** The low `k` bytes of `n`, least significant first. Casting to a narrower
      integer and then encoding drops the high bytes, which is what this does. */
  function LE(n: nat, k: nat): (s: seq<u8>)
    ensures |s| == k
  {
    seq(k, i requires 0 <= i => ByteOf(n, i))
  }

  function FromLE(s: seq<u8>): (n: nat)
    ensures n < Pow256(|s|)
  {
    if s == [] then 0 else s[0] + 256 * FromLE(s[1..])
  }

  lemma LEStep(n: nat, k: nat)
    requires k > 0
    ensures LE(n, k) == [n % 256] + LE(n / 256, k - 1)
  {
  }

  lemma ModStep(n: nat, m: nat)
    requires m > 0
    ensures n % (256 * m) == n % 256 + 256 * ((n / 256) % m)
  {
    var q := n / 256;
    var low := n % 256 + 256 * (q % m);
    assert q == m * (q / m) + q % m;
    assert 256 * (m * (q / m)) == (256 * m) * (q / m);
    assert n == (256 * m) * (q / m) + low;
    ModUnique(n, 256 * m, q / m, low);
  }

  /** Decoding an encoding gives the value modulo the width: exact for every value
      that fits, truncation otherwise. */
  lemma {:induction false} EncodeDecode(n: nat, k: nat)
    ensures FromLE(LE(n, k)) == n % Pow256(k)
  {
    if k > 0 {
      LEStep(n, k);
      EncodeDecode(n / 256, k - 1);
      ModStep(n, Pow256(k - 1));
    }
  }

  lemma {:induction false} DecodeEncode(s: seq<u8>)
    ensures LE(FromLE(s), |s|) == s
  {
    if s != [] {
      DecodeEncode(s[1..]);
      LEStep(FromLE(s), |s|);
      assert FromLE(s) % 256 == s[0] && FromLE(s) / 256 == FromLE(s[1..]);
    }
  }

  lemma Pow256Values()
    ensures Pow256(4) == TWO_32 && Pow256(8) == TWO_64
  {
    assert Pow256(2) == 0x1_0000;
    assert Pow256(4) == 0x1_0000_0000;
    assert Pow256(6) == 0x1_0000_0000_0000;
  }

  /** `u32::from_le_bytes` */
  function U32(s: seq<u8>): (v: u32)
    requires |s| == 4
    ensures LE(v, 4) == s
  {
    Pow256Values();
    DecodeEncode(s);
    FromLE(s)
  }

  /** `u64::from_le_bytes` */
  function U64(s: seq<u8>): (v: u64)
    requires |s| == 8
    ensures LE(v, 8) == s
  {
    Pow256Values();
    DecodeEncode(s);
    FromLE(s)
  }

  lemma U32OfLE(v: nat)
    ensures U32(LE(v, 4)) == v % TWO_32
  {
    Pow256Values();
    EncodeDecode(v, 4);
  }

  lemma U64OfLE(v: nat)
    ensures U64(LE(v, 8)) == v % TWO_64
  {
    Pow256Values();
    EncodeDecode(v, 8);
  }

  /** `i32::to_le_bytes`: two's complement. */
  function LEi32(v: i32): (s: seq<u8>)
    ensures |s| == 4
  {
    LE(TwosComplement(v), 4)
  }

  function TwosComplement(v: i32): u32 {
    if v < 0 then v + TWO_32 else v
  }

  function I32(s: seq<u8>): (v: i32)
    requires |s| == 4
    ensures LEi32(v) == s
  {
    var u := U32(s);
    if u < 0x8000_0000 then u else u - TWO_32
  }

  lemma I32OfLE(v: i32)
    ensures I32(LEi32(v)) == v
  {
    var u := TwosComplement(v);
    U32OfLE(u);
    assert U32(LEi32(v)) == u;
  }

  /** The bytes themselves: the least significant first, and a negative number as its
      complement. */
  lemma LittleEndian(n: nat, v: i32)
    ensures LE(n, 4) == [n % 256, n / 256 % 256, n / 65536 % 256, n / 16777216 % 256]
    ensures LE(n, 8)[..4] == LE(n, 4) && LE(n, 8)[4..] == LE(n / 4294967296, 4)
    ensures LEi32(v) == LE((v + 4294967296) % 4294967296, 4)
  {
    FourBytes(n);
    FourBytes(n / 4294967296);
    forall i | 0 <= i < 4
      ensures LE(n, 8)[i] == LE(n, 4)[i] && LE(n, 8)[4 + i] == LE(n / 4294967296, 4)[i]
    {
      ByteAfterFour(n, i);
    }
  }

  lemma Quotients(n: nat)
    ensures n / 256 / 256 == n / 65536
    ensures n / 65536 / 256 == n / 16777216
    ensures n / 16777216 / 256 == n / 4294967296
  {
  }

  lemma NextByte(n: nat, i: nat)
    requires i > 0
    ensures ByteOf(n, i) == ByteOf(n / 256, i - 1)
  {
  }

  lemma FourBytes(n: nat)
    ensures LE(n, 4) == [n % 256, n / 256 % 256, n / 65536 % 256, n / 16777216 % 256]
  {
    Quotients(n);
    var a, b, c := n / 256, n / 65536, n / 16777216;
    NextByte(n, 1);
    NextByte(n, 2);
    NextByte(a, 1);
    NextByte(n, 3);
    NextByte(a, 2);
    NextByte(b, 1);
  }

  lemma ByteAfterFour(n: nat, i: nat)
    ensures ByteOf(n, 4 + i) == ByteOf(n / 4294967296, i)
  {
    hide ByteOf;
    Quotients(n);
    NextByte(n, 4 + i);
    NextByte(n / 256, 3 + i);
    NextByte(n / 65536, 2 + i);
    NextByte(n / 16777216, 1 + i);
  }
}
