/** The flattened 4-D tensor index of the overflow probe, as the kernel's 32-bit
    arithmetic computes it and as the integers define it. */
module FlatIndex {
  import opened Basics
  import opened Bytes

  const TWO_31: int := 0x8000_0000

  type Int32 = n: int | -0x8000_0000 <= n < 0x8000_0000

  /** 32-bit two's-complement wrap-around. */
  function Wrap(n: int): Int32 {
    (n + TWO_31) % TWO_32 - TWO_31
  }

  datatype Dims = Dims(Z: nat, H: nat, W: nat, C: nat)

  datatype Coords = Coords(z: nat, y: nat, x: nat, c: nat)

  ghost predicate Positive(d: Dims) {
    d.Z > 0 && d.H > 0 && d.W > 0 && d.C > 0
  }

  ghost predicate InRange(d: Dims, p: Coords) {
    p.z < d.Z && p.y < d.H && p.x < d.W && p.c < d.C
  }

  /** The index over the integers. */
  function Index(d: Dims, p: Coords): int {
    ((p.z * d.H + p.y) * d.W + p.x) * d.C + p.c
  }

  function Product(d: Dims): int {
    d.Z * d.H * d.W * d.C
  }

  /** What the kernel evaluates: every intermediate wrapped to 32 bits. */
  function WrappedIndex(d: Dims, p: Coords): Int32 {
    Wrap(Wrap(Wrap(Wrap(Wrap(Wrap(p.z * d.H) + p.y) * d.W) + p.x) * d.C) + p.c)
  }

  // ----- one mixed-radix digit

  lemma MultiplyMonotone(a: nat, b: nat, n: nat)
    requires a <= b
    ensures 0 <= a * n <= b * n
  {
    assert (b - a) * n >= 0;
    assert b * n - a * n == (b - a) * n;
  }

  lemma DigitBound(q: nat, r: nat, m: nat, n: nat)
    requires q < m && r < n
    ensures 0 <= q * n + r < m * n
    ensures q == m - 1 && r == n - 1 ==> q * n + r == m * n - 1
  {
    MultiplyMonotone(q + 1, m, n);
    assert (q + 1) * n == q * n + n;
  }

  lemma DigitUnique(q: nat, r: nat, n: nat)
    requires r < n
    ensures (q * n + r) / n == q && (q * n + r) % n == r
  {
    assert q * n + r == n * q + r;
    ModUnique(q * n + r, n, q, r);
  }

  lemma QuotientBound(v: nat, m: nat, n: nat)
    requires n > 0 && v < m * n
    ensures v / n < m && v % n < n && v / n * n + v % n == v
  {
    if v / n >= m {
      MultiplyMonotone(m, v / n, n);
    }
  }

  // ----- the bijection

  /** The element at position `i` of the flattened tensor. */
  function CoordsOf(d: Dims, i: nat): Coords
    requires d.H > 0 && d.W > 0 && d.C > 0
  {
    var zyx: nat := i / d.C;
    var zy: nat := zyx / d.W;
    var z: nat := zy / d.H;
    Coords(z, zy % d.H, zyx % d.W, i % d.C)
  }

  lemma IndexInRange(d: Dims, p: Coords)
    requires InRange(d, p)
    ensures 0 <= Index(d, p) < Product(d)
    ensures CoordsOf(d, Index(d, p)) == p
  {
    var zy := p.z * d.H + p.y;
    DigitBound(p.z, p.y, d.Z, d.H);
    DigitUnique(p.z, p.y, d.H);
    var zyx := zy * d.W + p.x;
    DigitBound(zy, p.x, d.Z * d.H, d.W);
    DigitUnique(zy, p.x, d.W);
    DigitBound(zyx, p.c, d.Z * d.H * d.W, d.C);
    DigitUnique(zyx, p.c, d.C);
  }

  lemma CoordsInRange(d: Dims, i: nat)
    requires Positive(d) && i < Product(d)
    ensures InRange(d, CoordsOf(d, i)) && Index(d, CoordsOf(d, i)) == i
  {
    hide Index, Product, CoordsOf;
    ProductIs(d);
    var zyx, c := Digit(i, d.Z * d.H * d.W, d.C);
    var zy, x := Digit(zyx, d.Z * d.H, d.W);
    var z, y := Digit(zy, d.Z, d.H);
    IndexIs(d, Coords(z, y, x, c), zy, zyx, i);
    CoordsAre(d, i, zyx, zy);
  }

  /** Splitting off the last digit. */
  lemma Digit(v: nat, m: nat, n: nat) returns (q: nat, r: nat)
    requires n > 0 && v < m * n
    ensures q == v / n && r == v % n && q < m && r < n && q * n + r == v
  {
    QuotientBound(v, m, n);
    q, r := v / n, v % n;
  }

  lemma ProductIs(d: Dims)
    ensures Product(d) == d.Z * d.H * d.W * d.C
  {
  }

  lemma IndexIs(d: Dims, p: Coords, zy: nat, zyx: nat, i: nat)
    requires p.z * d.H + p.y == zy && zy * d.W + p.x == zyx && zyx * d.C + p.c == i
    ensures Index(d, p) == i
  {
  }

  lemma CoordsAre(d: Dims, i: nat, zyx: nat, zy: nat)
    requires d.H > 0 && d.W > 0 && d.C > 0 && zyx == i / d.C && zy == zyx / d.W
    ensures zy / d.H >= 0 && CoordsOf(d, i) == Coords(zy / d.H, zy % d.H, zyx % d.W, i % d.C)
  {
  }

  ghost predicate Reached(d: Dims, i: int) {
    exists p :: InRange(d, p) && Index(d, p) == i
  }

  /** In-range coordinates and positions below the element count correspond one to one. */
  lemma IndexIsBijection(d: Dims)
    requires Positive(d)
    ensures forall p :: InRange(d, p) ==> 0 <= Index(d, p) < Product(d)
    ensures forall p, q :: InRange(d, p) && InRange(d, q) && Index(d, p) == Index(d, q) ==> p == q
    ensures forall i :: 0 <= i < Product(d) ==> Reached(d, i)
  {
    forall p | InRange(d, p)
      ensures 0 <= Index(d, p) < Product(d) && CoordsOf(d, Index(d, p)) == p
    {
      IndexInRange(d, p);
    }
    forall i | 0 <= i < Product(d)
      ensures Reached(d, i)
    {
      CoordsInRange(d, i);
    }
  }

  function Last(d: Dims): Coords
    requires d.Z > 0 && d.H > 0 && d.W > 0 && d.C > 0
  {
    Coords(d.Z - 1, d.H - 1, d.W - 1, d.C - 1)
  }

  /** The element the probe touches is the last one. */
  lemma LastIndex(d: Dims)
    requires Positive(d)
    ensures InRange(d, Last(d)) && Index(d, Last(d)) == Product(d) - 1
  {
    var p := Last(d);
    var zy := p.z * d.H + p.y;
    DigitBound(p.z, p.y, d.Z, d.H);
    DigitBound(zy, p.x, d.Z * d.H, d.W);
    DigitBound(zy * d.W + p.x, p.c, d.Z * d.H * d.W, d.C);
  }

  // ----- wrapped evaluation

  ghost predicate Congruent(a: int, b: int) {
    (a - b) % TWO_32 == 0
  }

  lemma WrapCongruent(n: int)
    ensures Congruent(Wrap(n), n)
  {
    assert Wrap(n) - n == -TWO_32 * ((n + TWO_31) / TWO_32);
  }

  /** A multiply-add of congruent values, wrapped after each operation, stays congruent. */
  lemma HornerStep(a: int, b: int, m: int, k: int)
    requires Congruent(a, b)
    ensures Congruent(Wrap(Wrap(a * m) + k), b * m + k)
  {
    var t := (a - b) / TWO_32;
    assert a - b == TWO_32 * t;
    assert a * m - b * m == TWO_32 * (t * m);
    WrapCongruent(a * m);
    WrapCongruent(Wrap(a * m) + k);
  }

  lemma WrappedIsCongruent(d: Dims, p: Coords)
    ensures Congruent(WrappedIndex(d, p), Index(d, p))
  {
    var zy := Wrap(Wrap(p.z * d.H) + p.y);
    HornerStep(p.z, p.z, d.H, p.y);
    var zyx := Wrap(Wrap(zy * d.W) + p.x);
    HornerStep(zy, p.z * d.H + p.y, d.W, p.x);
    HornerStep(zyx, (p.z * d.H + p.y) * d.W + p.x, d.C, p.c);
  }

  lemma CongruentInRange(a: int, b: int)
    requires Congruent(a, b) && -TWO_31 <= a < TWO_31 && -TWO_31 <= b < TWO_31
    ensures a == b
  {
  }

  /** The 32-bit index is right exactly when the true index is a 32-bit value. */
  lemma WrappedExactIff(d: Dims, p: Coords)
    ensures WrappedIndex(d, p) == Index(d, p) <==> -TWO_31 <= Index(d, p) < TWO_31
  {
    WrappedIsCongruent(d, p);
    if -TWO_31 <= Index(d, p) < TWO_31 {
      CongruentInRange(WrappedIndex(d, p), Index(d, p));
    }
  }

  /** The kernel addresses every element of the tensor correctly iff the tensor has at
      most 2^31 elements. */
  lemma ExactIffProductFits(d: Dims)
    requires Positive(d)
    ensures (forall p :: InRange(d, p) ==> WrappedIndex(d, p) == Index(d, p)) <==> Product(d) <= TWO_31
  {
    LastIndex(d);
    WrappedExactIff(d, Last(d));
    if Product(d) <= TWO_31 {
      forall p | InRange(d, p)
        ensures WrappedIndex(d, p) == Index(d, p)
      {
        IndexInRange(d, p);
        WrappedExactIff(d, p);
      }
    }
  }

  // ----- the sweep

  lemma LastAddressed(d: Dims, product: int)
    requires Positive(d) && Product(d) == product
    ensures product <= TWO_31 ==> WrappedIndex(d, Last(d)) == product - 1
    ensures product % TWO_32 == 0 ==> WrappedIndex(d, Last(d)) == -1
  {
    hide WrappedIndex, Index, Product, Last;
    LastIndex(d);
    IndexInRange(d, Last(d));
    WrappedExactIff(d, Last(d));
    WrappedIsCongruent(d, Last(d));
    if product % TWO_32 == 0 {
      CongruentInRange(WrappedIndex(d, Last(d)), -1);
    }
  }

  /** The probe's five cases. At 2^31 elements, which it calls the signed-overflow edge,
      the last index is still exact; the first wrong one is the fourth case's, -1. */
  lemma SweepVerdicts()
    ensures WrappedIndex(Dims(1, 1, 1, 1000), Coords(0, 0, 0, 999)) == 999
    ensures WrappedIndex(Dims(1000, 1000, 1000, 2), Coords(999, 999, 999, 1)) == 1_999_999_999
    ensures WrappedIndex(Dims(1024, 1024, 1024, 2), Coords(1023, 1023, 1023, 1)) == TWO_31 - 1
    ensures WrappedIndex(Dims(1024, 1024, 1024, 4), Coords(1023, 1023, 1023, 3)) == -1
    ensures WrappedIndex(Dims(2048, 2048, 1024, 4), Coords(2047, 2047, 1023, 3)) == -1
  {
    hide WrappedIndex;
    LastAddressed(Dims(1, 1, 1, 1000), 1000);
    LastAddressed(Dims(1000, 1000, 1000, 2), 2_000_000_000);
    LastAddressed(Dims(1024, 1024, 1024, 2), TWO_31);
    LastAddressed(Dims(1024, 1024, 1024, 4), TWO_32);
    LastAddressed(Dims(2048, 2048, 1024, 4), 4 * TWO_32);
  }
}
