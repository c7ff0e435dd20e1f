/** The UTF-8 side of the wire: which byte strings `String::from_utf8` accepts
    (section 4 of RFC 3629), and what `String::from_utf8_lossy` makes of the rest. */
module Utf8 {
  import opened Bytes

  predicate Tail(b: u8) {
    0x80 <= b <= 0xBF
  }

  /** Byte count announced by a lead byte; 0 for a byte that cannot lead. */
  function Width(b: u8): (w: nat)
    ensures w <= 4
  {
    if b < 0x80 then 1
    else if 0xC2 <= b <= 0xDF then 2
    else if 0xE0 <= b <= 0xEF then 3
    else if 0xF0 <= b <= 0xF4 then 4
    else 0
  }

  /** The second byte is restricted for E0 and F0 (no overlong form), ED (no
      surrogate) and F4 (nothing above U+10FFFF). */
  predicate SecondOk(lead: u8, b: u8) {
    && (if lead == 0xE0 then 0xA0 else if lead == 0xF0 then 0x90 else 0x80) <= b
    && b <= (if lead == 0xED then 0x9F else if lead == 0xF4 then 0x8F else 0xBF)
  }

  /** How many bytes belong to the first character, or to the longest prefix of one
      that is still well formed. */
  function Matched(s: seq<u8>): (n: nat)
    requires s != []
    ensures 1 <= n <= |s| && n <= 4
  {
    var w := Width(s[0]);
    if w < 2 || |s| < 2 || !SecondOk(s[0], s[1]) then 1
    else if w < 3 || |s| < 3 || !Tail(s[2]) then 2
    else if w < 4 || |s| < 4 || !Tail(s[3]) then 3
    else 4
  }

  predicate StartsWell(s: seq<u8>)
    requires s != []
  {
    Matched(s) == Width(s[0])
  }

  predicate ValidUtf8(s: seq<u8>)
    decreases |s|
  {
    s == [] || (StartsWell(s) && ValidUtf8(s[Matched(s)..]))
  }

  /** A Rust `String`: bytes that are valid UTF-8. */
  type Utf8String = s: seq<u8> | ValidUtf8(s)

  /** U+FFFD, put in place of each maximal ill-formed run. */
  const REPLACEMENT: seq<u8> := [0xEF, 0xBF, 0xBD]

  function Lossy(s: seq<u8>): (r: seq<u8>)
    decreases |s|
  {
    if s == [] then []
    else (if StartsWell(s) then s[..Matched(s)] else REPLACEMENT) + Lossy(s[Matched(s)..])
  }

  lemma MatchedOfAppend(c: seq<u8>, t: seq<u8>)
    requires c != [] && Matched(c) == |c| == Width(c[0])
    ensures Matched(c + t) == |c| && StartsWell(c + t) && (c + t)[|c|..] == t && (c + t)[..|c|] == c
  {
  }

  lemma {:induction false} LossyIsValid(s: seq<u8>)
    ensures ValidUtf8(Lossy(s))
    decreases |s|
  {
    if s != [] {
      LossyIsValid(s[Matched(s)..]);
      var head := if StartsWell(s) then s[..Matched(s)] else REPLACEMENT;
      MatchedOfAppend(head, Lossy(s[Matched(s)..]));
    }
  }

  /** Lossy conversion is the identity on exactly the valid strings. */
  lemma {:induction false} LossyIdentityIffValid(s: seq<u8>)
    ensures Lossy(s) == s <==> ValidUtf8(s)
    decreases |s|
  {
    LossyIsValid(s);
    if s != [] && ValidUtf8(s) {
      LossyIdentityIffValid(s[Matched(s)..]);
      assert s == s[..Matched(s)] + s[Matched(s)..];
    }
  }

  function LossyString(s: seq<u8>): (r: Utf8String)
    ensures r == Lossy(s) && (ValidUtf8(s) ==> r == s)
  {
    LossyIsValid(s);
    LossyIdentityIffValid(s);
    Lossy(s)
  }

  // ----- the independent reference: code points

  /** Unicode scalar values. */
  type Scalar = v: int | 0 <= v <= 0x10FFFF && !(0xD800 <= v <= 0xDFFF)

  /** Section 3 of RFC 3629. */
  function EncodeScalar(v: Scalar): (s: seq<u8>)
    ensures 1 <= |s| <= 4
  {
    if v < 0x80 then [v]
    else if v < 0x800 then [0xC0 + v / 64, 0x80 + v % 64]
    else if v < 0x1_0000 then [0xE0 + v / 4096, 0x80 + v / 64 % 64, 0x80 + v % 64]
    else [0xF0 + v / 262144, 0x80 + v / 4096 % 64, 0x80 + v / 64 % 64, 0x80 + v % 64]
  }

  function EncodeScalars(vs: seq<Scalar>): (s: seq<u8>) {
    if vs == [] then [] else EncodeScalar(vs[0]) + EncodeScalars(vs[1..])
  }

  lemma EncodedScalarMatches(v: Scalar)
    ensures var c := EncodeScalar(v); Matched(c) == |c| == Width(c[0])
  {
    var c := EncodeScalar(v);
    if 0x800 <= v < 0x1_0000 {
      assert SecondOk(c[0], c[1]) && Tail(c[2]);
    } else if 0x1_0000 <= v {
      assert SecondOk(c[0], c[1]) && Tail(c[2]) && Tail(c[3]);
    }
  }

  function Scalar2(b: u8, c: u8): (v: Scalar)
    requires Width(b) == 2 && SecondOk(b, c)
    ensures EncodeScalar(v) == [b, c]
  {
    var x: int, y: int := b as int, c as int;
    (x - 0xC0) * 64 + (y - 0x80)
  }

  lemma SplitBits(v: nat, hi: nat, lo: nat)
    requires v == 64 * hi + lo && lo < 64
    ensures v / 64 == hi && v % 64 == lo && v / 4096 == hi / 64 && v / 262144 == hi / 4096
  {
  }

  function Scalar3(b: u8, c: u8, d: u8): (v: Scalar)
    requires Width(b) == 3 && SecondOk(b, c) && Tail(d)
    ensures EncodeScalar(v) == [b, c, d]
  {
    var x: int, y: int, z: int := b - 0xE0, c as int, d as int;
    var hi := 64 * x + (y - 0x80);
    var v := 64 * hi + (z - 0x80);
    SplitBits(v, hi, z - 0x80);
    SplitBits(hi, x, y - 0x80);
    v
  }

  function Scalar4(b: u8, c: u8, d: u8, e: u8): (v: Scalar)
    requires Width(b) == 4 && SecondOk(b, c) && Tail(d) && Tail(e)
    ensures EncodeScalar(v) == [b, c, d, e]
  {
    var w: int, x: int, y: int, z: int := b - 0xF0, c as int, d as int, e as int;
    var top := 64 * w + (x - 0x80);
    var hi := 64 * top + (y - 0x80);
    var v := 64 * hi + (z - 0x80);
    SplitBits(v, hi, z - 0x80);
    SplitBits(hi, top, y - 0x80);
    SplitBits(top, w, x - 0x80);
    v
  }

  function FirstScalar(s: seq<u8>): (v: Scalar)
    requires s != [] && StartsWell(s)
    ensures EncodeScalar(v) == s[..Matched(s)]
  {
    var w := Width(s[0]);
    if w == 1 then s[0] as int
    else if w == 2 then Scalar2(s[0], s[1])
    else if w == 3 then Scalar3(s[0], s[1], s[2])
    else Scalar4(s[0], s[1], s[2], s[3])
  }

  lemma {:induction false} EncodingIsValid(vs: seq<Scalar>)
    ensures ValidUtf8(EncodeScalars(vs))
  {
    if vs != [] {
      EncodingIsValid(vs[1..]);
      EncodedScalarMatches(vs[0]);
      MatchedOfAppend(EncodeScalar(vs[0]), EncodeScalars(vs[1..]));
    }
  }

  lemma {:induction false} ValidHasScalars(s: seq<u8>) returns (vs: seq<Scalar>)
    requires ValidUtf8(s)
    ensures EncodeScalars(vs) == s
    decreases |s|
  {
    hide EncodeScalar, FirstScalar, Matched;
    if s == [] {
      vs := [];
    } else {
      var rest := ValidHasScalars(s[Matched(s)..]);
      vs := [FirstScalar(s)] + rest;
      assert vs[1..] == rest;
      assert s == s[..Matched(s)] + s[Matched(s)..];
    }
  }

  /** The byte-level test accepts exactly the encodings of scalar-value sequences. */
  lemma {:induction false} ValidIffEncoding(s: seq<u8>)
    ensures ValidUtf8(s) <==> exists vs: seq<Scalar> :: EncodeScalars(vs) == s
  {
    if ValidUtf8(s) {
      var vs := ValidHasScalars(s);
    }
    forall vs: seq<Scalar> | EncodeScalars(vs) == s
      ensures ValidUtf8(s)
    {
      EncodingIsValid(vs);
    }
  }

  /** Lossy conversion keeps every valid character, and puts one U+FFFD in the place of a
      run that begins none. */
  lemma {:induction false} LossyKeepsValid(a: seq<u8>, s: seq<u8>)
    requires ValidUtf8(a)
    ensures Lossy(a + s) == a + Lossy(s)
    ensures s != [] && !StartsWell(s) ==> Lossy(a + s) == a + [0xEF, 0xBF, 0xBD] + Lossy(s[Matched(s)..])
    decreases |a|
  {
    hide Lossy, Matched, StartsWell;
    if s != [] && !StartsWell(s) {
      BadRunReplaced(s);
    }
    if a == [] {
      assert a + s == s;
    } else {
      var n := ValidHead(a);
      var c, rest := a[..n], a[n..];
      assert a == c + rest && a + s == c + (rest + s);
      GoodHeadKept(c, rest + s);
      LossyKeepsValid(rest, s);
    }
    assert s != [] && !StartsWell(s) ==>
        a + ([0xEF, 0xBF, 0xBD] + Lossy(s[Matched(s)..])) == a + [0xEF, 0xBF, 0xBD] + Lossy(s[Matched(s)..]);
  }

  lemma BadRunReplaced(s: seq<u8>)
    requires s != [] && !StartsWell(s)
    ensures Lossy(s) == [0xEF, 0xBF, 0xBD] + Lossy(s[Matched(s)..])
  {
  }

  lemma GoodHeadKept(c: seq<u8>, t: seq<u8>)
    requires c != [] && Matched(c) == |c| == Width(c[0])
    ensures Lossy(c + t) == c + Lossy(t)
  {
    hide Matched;
    MatchedOfAppend(c, t);
  }

  lemma ValidHead(a: seq<u8>) returns (n: nat)
    requires ValidUtf8(a) && a != []
    ensures 0 < n <= |a| && Matched(a[..n]) == n == Width(a[0]) && ValidUtf8(a[n..])
  {
    n := Matched(a);
    MatchedOfPrefix(a, n);
  }

  lemma MatchedOfPrefix(s: seq<u8>, n: nat)
    requires s != [] && StartsWell(s) && n == Matched(s)
    ensures Matched(s[..n]) == n == Width(s[..n][0])
  {
  }

  /** The Euro sign; a bad byte between letters; a cut-off character, replaced once; and
      a lead byte that its successor does not fit, replaced alone. */
  lemma Utf8Examples()
    ensures EncodeScalar(0x20AC) == [0xE2, 0x82, 0xAC]
    ensures Lossy([0x61, 0xFF, 0x62]) == [0x61, 0xEF, 0xBF, 0xBD, 0x62]
    ensures Lossy([0xE2, 0x82, 0x41]) == [0xEF, 0xBF, 0xBD, 0x41]
    ensures Lossy([0xF0, 0x80]) == [0xEF, 0xBF, 0xBD, 0xEF, 0xBF, 0xBD]
  {
    assert [0x61, 0xFF, 0x62][1..] == [0xFF, 0x62] && [0xFF, 0x62][1..] == [0x62] && [0x62][1..] == [];
    assert Lossy([0x62]) == [0x62] + Lossy([]);
    assert [0xE2, 0x82, 0x41][2..] == [0x41] && [0x41][1..] == [];
    assert Lossy([0x41]) == [0x41] + Lossy([]);
    assert [0xF0, 0x80][1..] == [0x80] && [0x80][1..] == [];
    assert Lossy([0x80]) == REPLACEMENT + Lossy([]);
  }
}
