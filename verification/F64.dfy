/** IEEE 754 doubles and rounding to a nearest one. */
module F64 {
  import opened Bytes

  function Abs(x: real): real {
    if x < 0.0 then -x else x
  }

  // ---- Doubles ----

  const MANTISSAS: int := 0x20_0000_0000_0000

  lemma {:induction false} PowPositive(k: nat)
    ensures Pow(2, k) >= 1
  {
    if k == 0 {
    } else {
      PowPositive(k - 1);
    }
  }

  function PowerOfTwo(k: nat): (r: real)
    ensures r >= 1.0
  {
    PowPositive(k);
    Pow(2, k) as real
  }

  predicate Fraction(z: real, m: nat, k: nat) {
    m <= MANTISSAS && k <= 1074 && z * PowerOfTwo(k) == m as real
  }

  predicate Multiple(z: real, m: nat, k: nat) {
    m <= MANTISSAS && k <= 971 && z == m as real * PowerOfTwo(k)
  }

  /** The non-negative finite doubles: 53 bits, scaled by a power of two. */
  ghost predicate Double(z: real) {
    exists m: nat, k: nat :: Fraction(z, m, k) || Multiple(z, m, k)
  }

  /** The numbers in play: below 2^64 times 100. */
  predicate InRange(x: real) {
    0.0 <= x <= 2000000000000000000000.0
  }

  /** No double is closer to `x` than `y` is. */
  ghost predicate Nearest(x: real, y: real) {
    forall z | Double(z) :: Abs(x - y) <= Abs(x - z)
  }

  ghost predicate RoundsTo(x: real, y: real) {
    Double(y) && Nearest(x, y)
  }

  /** What IEEE 754 asks of rounding in its default mode, ties aside. */
  ghost predicate RoundsToNearest(fl: real -> real) {
    forall x {:trigger RoundsTo(x, fl(x))} | InRange(x) :: RoundsTo(x, fl(x))
  }

  lemma IntegerIsDouble(n: nat)
    requires n <= MANTISSAS
    ensures Double(n as real)
  {
    assert Fraction(n as real, n, 0);
  }

  lemma DoubleStays(fl: real -> real, x: real)
    requires RoundsToNearest(fl) && InRange(x) && Double(x)
    ensures fl(x) == x
  {
    assert RoundsTo(x, fl(x)) && Abs(x - fl(x)) <= Abs(x - x);
  }

  lemma RoundsMonotone(fl: real -> real, x: real, y: real)
    requires RoundsToNearest(fl) && InRange(x) && InRange(y) && x <= y
    ensures fl(x) <= fl(y)
  {
    if x < y {
      assert RoundsTo(x, fl(x)) && RoundsTo(y, fl(y));
      assert Abs(x - fl(x)) <= Abs(x - fl(y)) && Abs(y - fl(y)) <= Abs(y - fl(x));
    }
  }

  lemma ScaledDistance(x: real, z: real, s: real)
    requires s > 0.0
    ensures Abs(x - z) * s == Abs(x * s - z * s)
  {
  }

  /** There is a double within half of 1/s of a number, if the number is below 2^53/s. */
  lemma NearbyDouble(x: real, k: nat) returns (z: real)
    requires x >= 0.0 && k <= 1074 && x * PowerOfTwo(k) <= MANTISSAS as real - 1.0
    ensures Double(z) && Abs(x - z) * PowerOfTwo(k) <= 0.5
  {
    var s := PowerOfTwo(k);
    var scaled := x * s;
    assert scaled >= 0.0;
    var i := (scaled + 0.5).Floor;
    z := i as real / s;
    assert z * s == i as real;
    assert Fraction(z, i, k);
    ScaledDistance(x, z, s);
  }

  lemma Closest(fl: real -> real, x: real, z: real)
    requires RoundsToNearest(fl) && InRange(x) && Double(z)
    ensures Abs(x - fl(x)) <= Abs(x - z)
  {
    assert RoundsTo(x, fl(x));
  }

  // ---- There is such a rounding ----

  ghost function Down(m: nat, k: nat): real {
    m as real / PowerOfTwo(k)
  }

  ghost function Up(m: nat, k: nat): real {
    m as real * PowerOfTwo(k)
  }

  /** All non-negative finite doubles; there are finitely many. */
  ghost function Doubles(): set<real> {
    (set m: nat, k: nat | m <= MANTISSAS && k <= 1074 :: Down(m, k))
    + (set m: nat, k: nat | m <= MANTISSAS && k <= 971 :: Up(m, k))
  }

  lemma Divides(z: real, m: real, s: real)
    requires s > 0.0
    ensures z * s == m <==> z == m / s
  {
    assert (m / s) * s == m;
    if z != m / s {
      assert (z - m / s) * s != 0.0;
    }
  }

  lemma Scaled(z: real, m: nat, k: nat)
    ensures Fraction(z, m, k) <==> m <= MANTISSAS && k <= 1074 && z == Down(m, k)
    ensures Multiple(z, m, k) <==> m <= MANTISSAS && k <= 971 && z == Up(m, k)
  {
    hide Pow;
    Divides(z, m as real, PowerOfTwo(k));
  }

  lemma DoubleListed(z: real)
    ensures Double(z) <==> z in Doubles()
  {
    hide Fraction, Multiple, Down, Up;
    forall m: nat, k: nat
      ensures Fraction(z, m, k) <==> m <= MANTISSAS && k <= 1074 && z == Down(m, k)
      ensures Multiple(z, m, k) <==> m <= MANTISSAS && k <= 971 && z == Up(m, k)
    {
      Scaled(z, m, k);
    }
  }

  lemma {:induction false} ClosestIn(zs: set<real>, w: real, x: real) returns (y: real)
    requires w in zs
    ensures y in zs && forall z | z in zs :: Abs(x - y) <= Abs(x - z)
    decreases |zs|
  {
    var rest := zs - {w};
    assert zs == rest + {w};
    if z :| z in rest {
      y := ClosestIn(rest, z, x);
      if Abs(x - w) < Abs(x - y) {
        y := w;
      }
    } else {
      y := w;
    }
  }

  lemma NearestExists(x: real)
    ensures exists y :: RoundsTo(x, y)
  {
    IntegerIsDouble(0);
    DoubleListed(0.0);
    var y := ClosestIn(Doubles(), 0.0, x);
    DoubleListed(y);
    forall z | Double(z) ensures Abs(x - y) <= Abs(x - z) { DoubleListed(z); }
    assert RoundsTo(x, y);
  }

  ghost function NearestTo(x: real): (y: real)
    ensures RoundsTo(x, y)
  {
    NearestExists(x);
    var y :| RoundsTo(x, y);
    y
  }

  lemma RoundingExists() returns (fl: real -> real)
    ensures RoundsToNearest(fl)
  {
    fl := (x: real) => NearestTo(x);
  }
}
