/** The index computation of percentile in src/stats.rs in double precision:
    when it yields the nearest rank, and exactly when it is one too high. */
module RankF64 {
  import opened Bytes
  import opened F64

  // ---- The computation ----

  /** The `f64::ceil` of a number. */
  function Ceil(x: real): int {
    -(-x).Floor
  }

  function CeilDiv(a: nat, b: nat): nat
    requires b > 0
  {
    (a + b - 1) / b
  }

  function Times(fl: real -> real, a: real, b: real): real {
    fl(a * b)
  }

  function Over(fl: real -> real, a: real, b: real): real
    requires b != 0.0
  {
    fl(a / b)
  }

  /** `len as f64 * p / 100.0` for a percent in tenths. */
  function Rank(fl: real -> real, n: nat, p: nat): real {
    Over(fl, Times(fl, fl(n as real), Over(fl, p as real, 10.0)), 100.0)
  }

  lemma {:induction false} PowAdd(base: nat, m: nat, n: nat)
    ensures Pow(base, m + n) == Pow(base, m) * Pow(base, n)
  {
    if n == 0 {
    } else {
      PowAdd(base, m, n - 1);
      assert base * (Pow(base, m) * Pow(base, n - 1)) == Pow(base, m) * (base * Pow(base, n - 1));
    }
  }

  lemma Powers()
    ensures Pow(2, 6) == 64 && Pow(2, 12) == 4096 && Pow(2, 45) == 35184372088832
  {
    assert Pow(2, 3) == 8 && Pow(2, 6) == 64;
    PowAdd(2, 6, 6);
    PowAdd(2, 12, 12);
    PowAdd(2, 24, 12);
    PowAdd(2, 36, 6);
    PowAdd(2, 42, 3);
  }

  /** Rounding errors where the doubles are at most 1/64 and 1/4096 apart. */
  lemma ErrorBelow47(fl: real -> real, x: real)
    requires RoundsToNearest(fl) && 0.0 <= x <= 140737488355327.0
    ensures -0.0078125 <= x - fl(x) <= 0.0078125
  {
    Powers();
    var z := NearbyDouble(x, 6);
    Closest(fl, x, z);
  }

  lemma ErrorBelow41(fl: real -> real, x: real)
    requires RoundsToNearest(fl) && 0.0 <= x <= 2199023255551.0
    ensures -0.0001220703125 <= x - fl(x) <= 0.0001220703125
  {
    Powers();
    var z := NearbyDouble(x, 12);
    Closest(fl, x, z);
  }

  lemma GridPowers()
    ensures Pow(2, 46) == 70368744177664 && Pow(2, 47) == 140737488355328
  {
    Powers();
    PowAdd(2, 45, 1);
    PowAdd(2, 46, 1);
    assert Pow(2, 1) == 2;
  }

  /** Doubles below 128 are at most 2^-46 apart. */
  lemma PercentError(fl: real -> real, x: real)
    requires RoundsToNearest(fl) && 0.0 <= x <= 100.0
    ensures -0.0000000000000072 <= x - fl(x) <= 0.0000000000000072
  {
    GridPowers();
    var z := NearbyDouble(x, 46);
    Closest(fl, x, z);
  }

  /** Up to this many samples, an error of the index is bounded; 2^40 samples fill 8 TiB. */
  const RANKED: int := 0x100_0000_0000

  lemma IntegerIsExact(fl: real -> real, n: nat)
    requires RoundsToNearest(fl) && n <= 100 * RANKED
    ensures fl(n as real) == n as real
  {
    IntegerIsDouble(n);
    DoubleStays(fl, n as real);
  }

  lemma ProductOfIntegers(n: nat, w: nat)
    requires n <= RANKED && w <= 100
    ensures 0 <= n * w <= 100 * RANKED && n as real * w as real == (n * w) as real
  {
    MulMonotone(n, w, 100);
    MulMonotone(n, 0, w);
  }

  lemma TenthsOfWhole(fl: real -> real, w: nat)
    requires RoundsToNearest(fl) && w <= 100
    ensures Over(fl, (10 * w) as real, 10.0) == w as real
  {
    IntegerIsExact(fl, w);
    assert (10 * w) as real / 10.0 == w as real;
  }

  lemma TimesIs(fl: real -> real, a: real, b: real, product: real)
    requires a * b == product
    ensures Times(fl, a, b) == fl(product)
  {
  }

  lemma ExactProduct(fl: real -> real, n: nat, w: nat)
    requires RoundsToNearest(fl) && n <= RANKED && w <= 100
    ensures Times(fl, n as real, w as real) == (n * w) as real
  {
    ProductOfIntegers(n, w);
    TimesIs(fl, n as real, w as real, (n * w) as real);
    IntegerIsExact(fl, n * w);
  }

  /** For a whole percent the product is exact. */
  lemma WholePercent(fl: real -> real, n: nat, w: nat)
    requires RoundsToNearest(fl) && n <= RANKED && w <= 100
    ensures Rank(fl, n, 10 * w) == Over(fl, (n * w) as real, 100.0)
  {
    IntegerIsExact(fl, n);
    TenthsOfWhole(fl, w);
    ExactProduct(fl, n, w);
  }

  lemma CeilBetween(w: real, m: int, c: int)
    requires (c - 1) as real < w <= c as real
    ensures Ceil(w) == c
  {
  }

  /** Rounding a number near a multiple of 1/1000 up to an integer gives what
      rounding the multiple up gives, or one more if that is an integer. */
  lemma CeilNear(w: real, num: nat)
    requires Abs(w * 1000.0 - num as real) < 1.0
    ensures Ceil(w) == CeilDiv(num, 1000) || (num % 1000 == 0 && Ceil(w) == CeilDiv(num, 1000) + 1)
    ensures num % 1000 == 0 && w * 1000.0 <= num as real ==> Ceil(w) == CeilDiv(num, 1000)
  {
    var m := CeilDiv(num, 1000);
    assert 1000 * (m - 1) < num <= 1000 * m;
    if num % 1000 == 0 {
      assert num == 1000 * m;
      CeilBetween(w, m, if w <= m as real then m else m + 1);
    } else {
      assert 1000 * (m - 1) + 1 <= num <= 1000 * m - 1;
      CeilBetween(w, m, m);
    }
  }

  lemma QuotientError(fl: real -> real, a: real)
    requires RoundsToNearest(fl) && 0.0 <= a <= 140737488355327.0
    ensures -0.123 <= a * 10.0 - Over(fl, a, 100.0) * 1000.0 <= 0.123
  {
    ErrorBelow41(fl, a / 100.0);
  }

  lemma WholeQuotient(fl: real -> real, product: nat)
    requires RoundsToNearest(fl) && product <= 100 * RANKED
    ensures Ceil(Over(fl, product as real, 100.0)) == CeilDiv(10 * product, 1000)
  {
    hide Pow, Double, Nearest, RoundsTo, Ceil;
    QuotientError(fl, product as real);
    var w := Over(fl, product as real, 100.0);
    if product % 100 == 0 {
      var q := product / 100;
      assert product as real / 100.0 == q as real;
      IntegerIsExact(fl, q);
    }
    CeilNear(w, 10 * product);
  }

  lemma TenTimes(n: nat, w: nat)
    ensures n * (10 * w) == 10 * (n * w)
  {
  }

  /** Computed for a whole percent, the rank is exact. */
  lemma WholeRank(fl: real -> real, n: nat, w: nat)
    requires RoundsToNearest(fl) && n <= RANKED && w <= 100
    ensures Ceil(Rank(fl, n, 10 * w)) == CeilDiv(n * (10 * w), 1000)
  {
    ProductOfIntegers(n, w);
    WholePercent(fl, n, w);
    WholeQuotient(fl, n * w);
    TenTimes(n, w);
  }

  lemma MulAtMost(a: real, b: real, s: real)
    requires a <= b && s >= 0.0
    ensures a * s <= b * s
  {
  }

  lemma MulWithin(d: real, c: real, n: real, limit: real)
    requires -c <= d <= c && 0.0 <= n <= limit
    ensures -(c * limit) <= n * d <= c * limit
  {
    MulAtMost(d, c, n);
    MulAtMost(-c, d, n);
    MulAtMost(n, limit, c);
  }

  lemma Distribute(s: real, a: real, b: real)
    ensures s * (a - b) == a * s - s * b
  {
  }

  lemma NotNegative(a: real, b: real)
    requires a >= 0.0 && b >= 0.0
    ensures a * b >= 0.0
  {
  }

  lemma ProductError(n: real, exact: real, percent: real)
    requires 0.0 <= n <= 1099511627776.0
    requires -0.0000000000000072 <= exact - percent <= 0.0000000000000072
    ensures -0.00792 <= exact * n - n * percent <= 0.00792
  {
    MulWithin(exact - percent, 0.0000000000000072, n, 1099511627776.0);
    Distribute(n, exact, percent);
  }

  lemma ErrorIsSmall(exact: real, product: real, rounded: real)
    requires -0.00792 <= exact - product <= 0.00792 && -0.0078125 <= product - rounded <= 0.0078125
    ensures -0.16 <= exact * 10.0 - rounded * 10.0 <= 0.16
  {
  }

  lemma QuotientNear(fl: real -> real, ideal: real, product: real)
    requires RoundsToNearest(fl) && 0.0 <= product <= 109951162777601.0 && -0.00792 <= ideal - product <= 0.00792
    ensures -1.0 < Over(fl, fl(product), 100.0) * 1000.0 - ideal * 10.0 < 1.0
  {
    hide Pow, Double, Nearest, RoundsTo;
    ErrorBelow47(fl, product);
    ErrorIsSmall(ideal, product, fl(product));
    IntegerIsExact(fl, 0);
    RoundsMonotone(fl, 0.0, product);
    QuotientError(fl, fl(product));
  }

  /** The exact product and the one of the rounded percent, which are close. */
  lemma Products(n: real, exact: real, percent: real) returns (ideal: real, product: real)
    requires 0.0 <= n <= 1099511627776.0 && 0.0 <= exact <= 100.0 && 0.0 <= percent
    requires -0.0000000000000072 <= exact - percent <= 0.0000000000000072
    ensures ideal == exact * n && product == n * percent
    ensures 0.0 <= product <= 109951162777601.0 && -0.00792 <= ideal - product <= 0.00792
  {
    ideal, product := exact * n, n * percent;
    ProductError(n, exact, percent);
    MulAtMost(exact, 100.0, n);
    assert ideal <= 100.0 * n;
    NotNegative(n, percent);
  }

  lemma RealProduct(m: nat, n: nat)
    ensures (m * n) as real == m as real * n as real
  {
  }

  lemma TenthsProduct(n: nat, p: nat)
    ensures (p as real / 10.0) * (n as real) * 10.0 == (n * p) as real
  {
    RealProduct(n, p);
  }

  lemma StaysBetween(fl: real -> real, x: real, low: real, high: real)
    requires RoundsToNearest(fl) && Double(low) && Double(high) && InRange(low) && InRange(high) && low <= x <= high
    ensures low <= fl(x) <= high
  {
    DoubleStays(fl, low);
    DoubleStays(fl, high);
    RoundsMonotone(fl, low, x);
    RoundsMonotone(fl, x, high);
  }

  lemma PercentInRange(fl: real -> real, p: nat)
    requires RoundsToNearest(fl) && p <= 1000
    ensures 0.0 <= Over(fl, p as real, 10.0) <= 100.0
  {
    IntegerIsDouble(0);
    IntegerIsDouble(100);
    StaysBetween(fl, p as real / 10.0, 0.0, 100.0);
  }

  lemma RankNear(fl: real -> real, n: nat, p: nat)
    requires RoundsToNearest(fl) && n <= RANKED && p <= 1000
    ensures -1.0 < Rank(fl, n, p) * 1000.0 - (n * p) as real < 1.0
  {
    hide Pow, Double, Nearest, RoundsTo, Times;
    var exact, percent := p as real / 10.0, Over(fl, p as real, 10.0);
    PercentError(fl, exact);
    PercentInRange(fl, p);
    IntegerIsExact(fl, n);
    var ideal, product := Products(n as real, exact, percent);
    TimesIs(fl, n as real, percent, product);
    QuotientNear(fl, ideal, product);
    TenthsProduct(n, p);
  }

  /** Computed for any percent, the rank is exact, unless the exact rank is an
      integer: then it may be one too high. */
  lemma AnyRank(fl: real -> real, n: nat, p: nat)
    requires RoundsToNearest(fl) && n <= RANKED && p <= 1000
    ensures var exact := CeilDiv(n * p, 1000);
            Ceil(Rank(fl, n, p)) == exact || ((n * p) % 1000 == 0 && Ceil(Rank(fl, n, p)) == exact + 1)
  {
    hide Rank, Ceil, RoundsToNearest;
    RankNear(fl, n, p);
    CeilNear(Rank(fl, n, p), n * p);
  }

  lemma ThousandDivides(n: nat)
    requires (n * 999) % 1000 == 0
    ensures n % 1000 == 0
  {
    assert n == 1000 * (n - n * 999 / 1000);
  }

  lemma LastRank(fl: real -> real, n: nat)
    requires RoundsToNearest(fl) && n <= RANKED
    ensures var exact := CeilDiv(n * 999, 1000);
            Ceil(Rank(fl, n, 999)) == exact || (n % 1000 == 0 && Ceil(Rank(fl, n, 999)) == exact + 1)
  {
    hide Rank, Ceil, RoundsToNearest;
    AnyRank(fl, n, 999);
    if (n * 999) % 1000 == 0 {
      ThousandDivides(n);
    }
  }

  // ---- Ranks in order, for any length a vector can have ----

  const MAX_LENGTH: int := 0x7fff_ffff_ffff_ffff

  lemma PowersAreDoubles()
    ensures Double(0.0) && Double(9223372036854775808.0) && Double(1180591620717411303424.0)
  {
    Powers();
    PowAdd(2, 45, 18);
    PowAdd(2, 12, 6);
    PowAdd(2, 45, 12);
    PowAdd(2, 57, 13);
    PowAdd(2, 12, 1);
    assert Pow(2, 63) == 9223372036854775808 && Pow(2, 70) == 1180591620717411303424;
    assert Multiple(0.0, 0, 0) && Multiple(9223372036854775808.0, 1, 63) && Multiple(1180591620717411303424.0, 1, 70);
  }

  lemma LengthInRange(fl: real -> real, n: nat)
    requires RoundsToNearest(fl) && n <= MAX_LENGTH
    ensures 0.0 <= fl(n as real) <= 9223372036854775808.0
  {
    PowersAreDoubles();
    StaysBetween(fl, n as real, 0.0, 9223372036854775808.0);
  }

  lemma ProductBound(length: real, percent: real)
    requires 0.0 <= length <= 9223372036854775808.0 && 0.0 <= percent <= 100.0
    ensures 0.0 <= length * percent <= 1180591620717411303424.0
  {
    var product := length * percent;
    assert product <= 100.0 * length by { MulAtMost(percent, 100.0, length); }
    assert product >= 0.0 by { MulAtMost(0.0, percent, length); }
  }

  lemma ProductInRange(fl: real -> real, length: real, percent: real)
    requires RoundsToNearest(fl) && 0.0 <= length <= 9223372036854775808.0 && 0.0 <= percent <= 100.0
    ensures 0.0 <= Times(fl, length, percent) <= 1180591620717411303424.0
  {
    ProductBound(length, percent);
    PowersAreDoubles();
    StaysBetween(fl, length * percent, 0.0, 1180591620717411303424.0);
  }

  lemma TimesMonotone(fl: real -> real, length: real, percent: real, percent': real)
    requires RoundsToNearest(fl) && 0.0 <= length <= 9223372036854775808.0 && 0.0 <= percent <= percent' <= 100.0
    ensures Times(fl, length, percent) <= Times(fl, length, percent')
  {
    ProductBound(length, percent);
    ProductBound(length, percent');
    MulAtMost(percent, percent', length);
    RoundsMonotone(fl, length * percent, length * percent');
  }

  lemma TenthsMonotone(fl: real -> real, a: real, a': real)
    requires RoundsToNearest(fl) && 0.0 <= a <= a' <= 1000.0
    ensures Over(fl, a, 10.0) <= Over(fl, a', 10.0)
  {
    RoundsMonotone(fl, a / 10.0, a' / 10.0);
  }

  lemma HundredthsMonotone(fl: real -> real, a: real, a': real)
    requires RoundsToNearest(fl) && 0.0 <= a <= a' <= 1180591620717411303424.0
    ensures Over(fl, a, 100.0) <= Over(fl, a', 100.0)
  {
    RoundsMonotone(fl, a / 100.0, a' / 100.0);
  }

  lemma RankNotNegative(fl: real -> real, n: nat, p: nat)
    requires RoundsToNearest(fl) && n <= MAX_LENGTH && p <= 1000
    ensures Rank(fl, n, p) >= 0.0
  {
    PercentInRange(fl, p);
    LengthInRange(fl, n);
    ProductInRange(fl, fl(n as real), Over(fl, p as real, 10.0));
    var product := Times(fl, fl(n as real), Over(fl, p as real, 10.0));
    PowersAreDoubles();
    StaysBetween(fl, product / 100.0, 0.0, 1180591620717411303424.0);
  }

  /** A larger percent never has a smaller rank. */
  lemma RankMonotone(fl: real -> real, n: nat, p: nat, q: nat)
    requires RoundsToNearest(fl) && n <= MAX_LENGTH && p <= q <= 1000
    ensures 0.0 <= Rank(fl, n, p) <= Rank(fl, n, q)
  {
    var length, percent, percent' := fl(n as real), Over(fl, p as real, 10.0), Over(fl, q as real, 10.0);
    PercentInRange(fl, p);
    PercentInRange(fl, q);
    LengthInRange(fl, n);
    ProductInRange(fl, length, percent);
    ProductInRange(fl, length, percent');
    TenthsMonotone(fl, p as real, q as real);
    TimesMonotone(fl, length, percent, percent');
    HundredthsMonotone(fl, Times(fl, length, percent), Times(fl, length, percent'));
    RankNotNegative(fl, n, p);
  }

  // ---- An index that is one too high ----

  lemma {:induction false} PowMonotone(m: nat, n: nat)
    requires m <= n
    ensures Pow(2, m) <= Pow(2, n)
    decreases n
  {
    if m == n {
    } else {
      PowMonotone(m, n - 1);
      PowPositive(n - 1);
    }
  }

  lemma PowerSplit(k: nat, c: nat)
    requires k <= c
    ensures PowerOfTwo(c) == PowerOfTwo(k) * PowerOfTwo(c - k)
  {
    PowAdd(2, k, c - k);
    RealProduct(Pow(2, k), Pow(2, c - k));
  }

  lemma ScaledUp(y: real, s: real, t: real, r: real, m: real)
    requires y * s == m && r == s * t
    ensures y * r == m * t
  {
    assert y * (s * t) == (y * s) * t;
  }

  lemma FractionOnGrid(y: real, m: nat, k: nat, c: nat) returns (j: nat)
    requires Fraction(y, m, k) && k <= c
    ensures y * PowerOfTwo(c) == j as real
  {
    hide Pow;
    j := m * Pow(2, c - k);
    RealProduct(m, Pow(2, c - k));
    PowerSplit(k, c);
    ScaledUp(y, PowerOfTwo(k), PowerOfTwo(c - k), PowerOfTwo(c), m as real);
  }

  lemma MultipleOnGrid(y: real, m: nat, k: nat, c: nat) returns (j: nat)
    requires Multiple(y, m, k)
    ensures y * PowerOfTwo(c) == j as real
  {
    var p, q := Pow(2, k), Pow(2, c);
    RealProduct(m, p);
    RealProduct(m * p, q);
    j := m * p * q;
  }

  lemma TwoTo52()
    ensures Pow(2, 52) == 4503599627370496
  {
    Powers();
    PowAdd(2, 45, 6);
    PowAdd(2, 51, 1);
  }

  lemma GridProduct53(c: nat, d: nat)
    requires c <= 52 && d == Pow(2, 52 - c)
    ensures d * Pow(2, c + 1) == MANTISSAS
  {
    TwoTo52();
    PowAdd(2, 52, 1);
    PowAdd(2, 52 - c, c + 1);
  }

  lemma MulLess(a: real, b: real, s: real)
    requires a < b && s > 0.0
    ensures a * s < b * s
  {
  }

  lemma MulCancels(a: real, b: real, s: real, scaledA: real, scaledB: real)
    requires s > 0.0 && scaledA == a * s && scaledB == b * s && scaledA <= scaledB
    ensures a <= b
  {
    if b < a {
      MulLess(b, a, s);
    }
  }

  lemma FineFractionsAreSmall(y: real, m: nat, k: nat, c: nat, d: nat)
    requires Fraction(y, m, k) && k > c && c <= 52 && d == Pow(2, 52 - c)
    ensures y <= d as real
  {
    hide Pow;
    var p := Pow(2, k);
    assert m <= d * p by {
      GridProduct53(c, d);
      PowMonotone(c + 1, k);
      MulMonotone(d, Pow(2, c + 1), p);
    }
    RealProduct(d, p);
    MulCancels(y, d as real, p as real, m as real, (d * p) as real);
  }

  /** Doubles beyond 2^(52-c) are multiples of 2^-c. */
  lemma OnGrid(y: real, c: nat, d: nat) returns (j: nat)
    requires Double(y) && c <= 52 && d == Pow(2, 52 - c) && y > d as real
    ensures y * PowerOfTwo(c) == j as real
  {
    var m: nat, k: nat :| Fraction(y, m, k) || Multiple(y, m, k);
    if Multiple(y, m, k) {
      j := MultipleOnGrid(y, m, k, c);
    } else {
      if k > c {
        FineFractionsAreSmall(y, m, k, c, d);
      }
      j := FractionOnGrid(y, m, k, c);
    }
  }

  lemma NextTo(y: real, j: nat)
    requires Abs(99.9 - y) <= 0.0000000000000072 && y * 70368744177664.0 == j as real
    ensures j == 7029837543348634
  {
    assert 7029837543348633.0 < j as real < 7029837543348635.0;
  }

  /** The literal 99.9. */
  lemma LiteralExact(fl: real -> real)
    requires RoundsToNearest(fl)
    ensures fl(99.9) * 70368744177664.0 == 7029837543348634.0
  {
    var y := fl(99.9);
    PercentError(fl, 99.9);
    GridPowers();
    assert RoundsTo(99.9, y);
    Powers();
    var j := OnGrid(y, 46, Pow(2, 6));
    NextTo(y, j);
  }

  // ---- Exactly which lengths have it ----

  lemma Compare(c: real, t: real, d: real, s: real)
    requires s > 0.0
    ensures c * t > d ==> c * (t * s) > d * s
    ensures c * t < d ==> c * (t * s) < d * s
  {
    assert c * (t * s) == (c * t) * s;
  }

  lemma ExcessScaled(ts: real, es: real)
    requires es * 70368744177664.0 == 400.0 * ts
    ensures 51200.0 * ts > 4503599627370496.0 ==> 2.0 * es > 1.0
    ensures 51200.0 * ts < 4503599627370496.0 ==> 2.0 * es < 1.0
    ensures 49950.0 * ts < 4503599627370496.0 ==> es < 1.0
  {
  }

  lemma ScaledExcess(e: real, s: real, t: real)
    requires e * 70368744177664.0 == 400.0 * t
    ensures (e * s) * 70368744177664.0 == 400.0 * (t * s)
  {
    assert (e * s) * 70368744177664.0 == (e * 70368744177664.0) * s;
  }

  /** 1000 t times the literal is 99,900 t and a little, `e`; `s` per unit is the
      grid of the doubles there, and `d` the power of two they begin at. */
  lemma Excess(t: real, d: real, s: real, e: real)
    requires d > 0.0 && s > 0.0 && d * s == 4503599627370496.0 && e * 70368744177664.0 == 400.0 * t
    ensures 51200.0 * t > d ==> 2.0 * (e * s) > 1.0
    ensures 51200.0 * t < d ==> 2.0 * (e * s) < 1.0
  {
    ScaledExcess(e, s, t);
    Compare(51200.0, t, d, s);
    ExcessScaled(t * s, e * s);
  }

  lemma ExcessBelowStep(t: real, d: real, s: real, e: real)
    requires d > 0.0 && s > 0.0 && d * s == 4503599627370496.0 && e * 70368744177664.0 == 400.0 * t
    requires 49950.0 * t < d
    ensures e * s < 1.0
  {
    var ts, es := t * s, e * s;
    assert es * 70368744177664.0 == 400.0 * ts by { ScaledExcess(e, s, t); }
    assert 49950.0 * ts < 4503599627370496.0 by { Compare(49950.0, t, d, s); }
    ExcessScaled(ts, es);
  }

  lemma FractionIsDouble(z: real, m: nat, k: nat, s: real)
    requires m <= MANTISSAS && k <= 1074 && s == PowerOfTwo(k) && z * s == m as real
    ensures Double(z)
  {
    assert Fraction(z, m, k);
  }

  lemma GridProduct(a: nat)
    requires a <= 52
    ensures Pow(2, a) * Pow(2, 52 - a) == 4503599627370496
    ensures PowerOfTwo(a) * PowerOfTwo(52 - a) == 4503599627370496.0
  {
    hide Pow;
    PowAdd(2, a, 52 - a);
    TwoTo52();
    RealProduct(Pow(2, a), Pow(2, 52 - a));
  }

  lemma Expand(x: real, g: real, s: real)
    ensures (x + g) * s == x * s + g * s
  {
  }

  lemma NextScaled(x: nat, n: nat, g: real, s: real)
    requires s == n as real && g * s == 1.0
    ensures (x as real + g) * s == (x * n + 1) as real
  {
    Expand(x as real, g, s);
    RealProduct(x, n);
  }

  lemma StepBelow(x: nat, d: nat, s: nat)
    requires x < 2 * d && d * s == 4503599627370496
    ensures x * s + 1 <= MANTISSAS
  {
    MulMonotone(s, x, 2 * d - 1);
    assert s * (2 * d - 1) == 2 * (d * s) - s;
    assert s == 0 ==> d * s == 0;
  }

  lemma NextNumerator(x: nat, d: nat, n: nat, g: real) returns (m: nat)
    requires d * n == 4503599627370496 && x < 2 * d && g * (n as real) == 1.0
    ensures m <= MANTISSAS && (x as real + g) * (n as real) == m as real
  {
    StepBelow(x, d, n);
    NextScaled(x, n, g, n as real);
    m := x * n + 1;
  }

  /** The doubles next to an integer `x` between 2^a and 2^(a+1) are 1/s apart. */
  lemma NextDouble(x: nat, a: nat, g: real, d: nat, n: nat)
    requires a <= 52 && d == Pow(2, a) && n == Pow(2, 52 - a) && x < 2 * d && g * (n as real) == 1.0
    ensures Double(x as real + g)
  {
    hide Pow, Double;
    assert d * n == 4503599627370496 by { GridProduct(a); }
    var m := NextNumerator(x, d, n, g);
    FractionIsDouble(x as real + g, m, 52 - a, n as real);
  }

  // y is what `x + e` rounds to, where the doubles around the integer x are g apart

  lemma RoundsUpOne(fl: real -> real, x: real, e: real, g: real)
    requires RoundsToNearest(fl) && Double(x + g) && 0.0 <= x && x + g <= 140737488355328.0
    requires 0.0 < e < g && g < 2.0 * e
    ensures x < fl(x + e)
  {
    Closest(fl, x + e, x + g);
  }

  lemma RoundsDownOne(fl: real -> real, x: real, e: real, g: real)
    requires RoundsToNearest(fl) && Double(x) && 0.0 <= x <= 140737488355328.0 && 0.0 <= e && 2.0 * e < g && g <= 1.0
    ensures x <= fl(x + e) < x + g
  {
    Closest(fl, x + e, x);
    DoubleStays(fl, x);
    RoundsMonotone(fl, x, x + e);
  }

  lemma GridAbove(y: real, x: nat, n: nat, j: nat, g: real)
    requires n > 0 && g * (n as real) == 1.0 && y * (n as real) == j as real && y > x as real
    ensures y >= x as real + g
  {
    var s, m := n as real, x * n;
    assert j > m by {
      RealProduct(x, n);
      MulLess(x as real, y, s);
    }
    assert (x as real + g) * s == (m + 1) as real by { NextScaled(x, n, g, s); }
    MulCancels(x as real + g, y, s, (m + 1) as real, j as real);
  }

  lemma GridBelow(y: real, x: nat, n: nat, j: nat, g: real)
    requires n > 0 && g * (n as real) == 1.0 && y * (n as real) == j as real && x as real <= y < x as real + g
    ensures y == x as real
  {
    if y > x as real {
      GridAbove(y, x, n, j, g);
    }
  }

  lemma Log2(x: nat) returns (a: nat)
    requires x >= 1
    ensures Pow(2, a) <= x < 2 * Pow(2, a)
  {
    if x == 1 {
      a := 0;
    } else {
      a := Log2(x / 2);
      a := a + 1;
    }
  }

  lemma {:induction false} NotMultipleOf5(a: nat)
    ensures Pow(2, a) % 5 != 0
  {
    if a == 0 {
    } else {
      NotMultipleOf5(a - 1);
    }
  }

  /** A power of two strictly between 49.95 and 51.2 times the length, which is 1000 t. */
  ghost predicate PowerBetween(t: nat) {
    exists a: nat :: 49950 * t < Pow(2, a) < 51200 * t
  }

  /** The lengths for which the rank of 99.9 is computed one too high. */
  ghost predicate OneTooHigh(n: nat) {
    n % 1000 == 0 && PowerBetween(n / 1000)
  }

  lemma PowDoubles(m: nat, n: nat)
    requires m < n
    ensures 2 * Pow(2, m) <= Pow(2, n)
  {
    PowMonotone(m + 1, n);
  }

  lemma NotThatPower(t: nat, a: nat)
    ensures Pow(2, a) != 51200 * t && Pow(2, a) != 99900 * t
  {
    hide Pow;
    NotMultipleOf5(a);
    ModUnique(51200 * t, 5, 10240 * t, 0);
    ModUnique(99900 * t, 5, 19980 * t, 0);
  }

  lemma PowerIsLog(t: nat, a: nat)
    requires Pow(2, a) <= 99900 * t < 2 * Pow(2, a)
    ensures PowerBetween(t) <==> Pow(2, a) < 51200 * t
  {
    hide Pow;
    if PowerBetween(t) {
      var c: nat :| 49950 * t < Pow(2, c) < 51200 * t;
      if c < a { PowDoubles(c, a); }
      if a < c { PowDoubles(a, c); }
    }
  }

  lemma StepSize(g: real, s: real)
    requires s >= 64.0 && g == 1.0 / s
    ensures g * s == 1.0 && 0.0 < g <= 0.015625
  {
    if g > 0.015625 { MulLess(0.015625, g, s); }
  }

  lemma GridStep(a: nat, n: nat) returns (g: real)
    requires a <= 46 && n == Pow(2, 52 - a)
    ensures g * (n as real) == 1.0 && 0.0 < g <= 0.015625 && n > 0
  {
    Powers();
    PowMonotone(6, 52 - a);
    g := 1.0 / n as real;
    StepSize(g, n as real);
  }

  lemma RoundedOnGrid(fl: real -> real, x: real, a: nat, d: nat, n: nat) returns (j: nat)
    requires RoundsToNearest(fl) && InRange(x) && fl(x) > d as real
    requires a <= 46 && d == Pow(2, a) && n == Pow(2, 52 - a)
    ensures fl(x) * (n as real) == j as real
  {
    hide Pow, Nearest, Double;
    assert RoundsTo(x, fl(x));
    j := OnGrid(fl(x), 52 - a, d);
  }

  /** An integer just past 2^a plus an excess rounds to the next double if the
      excess is more than half a step, and to itself if it is less. */
  lemma ExcessUp(fl: real -> real, x: nat, a: nat, d: nat, n: nat, e: real, g: real)
    requires RoundsToNearest(fl) && a <= 46 && d == Pow(2, a) && n == Pow(2, 52 - a) && n > 0
    requires d < x < 2 * d && x < 140737488355327 && g * (n as real) == 1.0 && 0.0 < e < g <= 0.015625 && g < 2.0 * e
    ensures fl(x as real + e) >= x as real + g
  {
    hide Pow, Nearest, RoundsTo, Double;
    assert x as real < fl(x as real + e) by {
      NextDouble(x, a, g, d, n);
      RoundsUpOne(fl, x as real, e, g);
    }
    var j := RoundedOnGrid(fl, x as real + e, a, d, n);
    GridAbove(fl(x as real + e), x, n, j, g);
  }

  lemma ExcessDown(fl: real -> real, x: nat, a: nat, d: nat, n: nat, e: real, g: real)
    requires RoundsToNearest(fl) && a <= 46 && d == Pow(2, a) && n == Pow(2, 52 - a) && n > 0
    requires d < x < 140737488355327 && g * (n as real) == 1.0 && 0.0 < e && 2.0 * e < g <= 0.015625
    ensures fl(x as real + e) == x as real
  {
    hide Pow, Nearest, RoundsTo, Double;
    assert x as real <= fl(x as real + e) < x as real + g by {
      IntegerIsDouble(x);
      RoundsDownOne(fl, x as real, e, g);
    }
    var j := RoundedOnGrid(fl, x as real + e, a, d, n);
    GridBelow(fl(x as real + e), x, n, j, g);
  }

  lemma Cancels(a: real, b: real, s: real, scaledA: real, scaledB: real)
    requires s > 0.0 && scaledA == a * s && scaledB == b * s && scaledA < scaledB
    ensures a < b
  {
    if b <= a { MulAtMost(b, a, s); }
  }

  lemma HalfStep(e: real, g: real, s: real)
    requires s > 0.0 && g * s == 1.0
    ensures 2.0 * (e * s) > 1.0 ==> g < 2.0 * e
    ensures 2.0 * (e * s) < 1.0 ==> 2.0 * e < g
  {
    var twice := 2.0 * e;
    var scaled := twice * s;
    assert scaled == 2.0 * (e * s);
    if scaled > 1.0 { Cancels(g, twice, s, 1.0, scaled); }
    if scaled < 1.0 { Cancels(twice, g, s, scaled, 1.0); }
  }

  lemma ExcessAgainstStep(t: real, d: real, s: real, e: real, g: real)
    requires d > 0.0 && s > 0.0 && d * s == 4503599627370496.0 && e * 70368744177664.0 == 400.0 * t
    requires g * s == 1.0 && 49950.0 * t < d
    ensures e < g
    ensures 51200.0 * t > d ==> g < 2.0 * e
    ensures 51200.0 * t < d ==> 2.0 * e < g
  {
    assert e < g by {
      ExcessBelowStep(t, d, s, e);
      Cancels(e, g, s, e * s, 1.0);
    }
    Excess(t, d, s, e);
    HalfStep(e, g, s);
  }

  lemma StepAgainstExcess(t: nat, a: nat, d: nat, n: nat, e: real, g: real)
    requires a <= 46 && d == Pow(2, a) && n == Pow(2, 52 - a) && n > 0
    requires 49950 * t < d && d != 51200 * t && 1 <= t
    requires e * 70368744177664.0 == 400.0 * t as real && g * (n as real) == 1.0 && g > 0.0
    ensures 0.0 < e < g && (if d < 51200 * t then g < 2.0 * e else 2.0 * e < g)
  {
    GridProduct(a);
    ExcessAgainstStep(t as real, d as real, n as real, e, g);
  }

  lemma QuotientNumerator(q: nat, d: nat, n: nat)
    requires 100 * q < 2 * d && d * n == 4503599627370496 && n > 0
    ensures 64 * (q * n) + 1 <= MANTISSAS
  {
    MulMonotone(n, 50 * q, d - 1);
    assert n * (50 * q) == 50 * (q * n) && n * (d - 1) == d * n - n;
  }

  lemma QuotientScaled(q: nat, n: nat, g: real)
    requires g * (n as real) == 1.0
    ensures (q as real + g / 64.0) * (64 * n) as real == (64 * (q * n) + 1) as real
  {
    var s := n as real;
    RealProduct(q, n);
    var qs, gs := q as real * s, g * s;
    assert (q as real + g / 64.0) * (64.0 * s) == 64.0 * qs + gs;
  }

  lemma QuotientStep(q: nat, d: nat, n: nat, g: real) returns (m: nat)
    requires 100 * q < 2 * d && d * n == 4503599627370496 && n > 0 && g * (n as real) == 1.0
    ensures m <= MANTISSAS && (q as real + g / 64.0) * (64 * n) as real == m as real
  {
    QuotientNumerator(q, d, n);
    QuotientScaled(q, n, g);
    m := 64 * (q * n) + 1;
  }

  lemma FinerGrid(a: nat, n: nat)
    requires a <= 46 && n == Pow(2, 52 - a)
    ensures PowerOfTwo(58 - a) == (64 * n) as real
  {
    Powers();
    PowAdd(2, 52 - a, 6);
  }

  /** The double after a quotient: there they are 64 times as close. */
  lemma NextQuotient(q: nat, a: nat, d: nat, n: nat, g: real)
    requires a <= 46 && d == Pow(2, a) && n == Pow(2, 52 - a) && n > 0
    requires 100 * q < 2 * d && g * (n as real) == 1.0
    ensures Double(q as real + g / 64.0)
  {
    hide Pow, Double;
    assert d * n == 4503599627370496 by { GridProduct(a); }
    var m := QuotientStep(q, d, n, g);
    FinerGrid(a, n);
    FractionIsDouble(q as real + g / 64.0, m, 58 - a, (64 * n) as real);
  }

  lemma QuotientAbove(fl: real -> real, q: nat, g: real, y: real)
    requires RoundsToNearest(fl) && Double(q as real + g / 64.0) && 0.0 < g <= 0.015625
    requires q <= 2000000000000 && 100.0 * q as real + g <= y <= 140737488355328.0
    ensures Over(fl, y, 100.0) > q as real
  {
    var least := q as real + g / 100.0;
    Closest(fl, least, q as real + g / 64.0);
    RoundsMonotone(fl, least, y / 100.0);
  }

  lemma QuotientExact(fl: real -> real, q: nat)
    requires RoundsToNearest(fl) && q <= RANKED
    ensures Over(fl, (100 * q) as real, 100.0) == q as real
  {
    IntegerIsExact(fl, q);
    assert (100 * q) as real / 100.0 == q as real;
  }

  lemma ThousandTimesLiteral(t: nat, percent: real) returns (e: real)
    requires percent * 70368744177664.0 == 7029837543348634.0
    ensures e * 70368744177664.0 == 400.0 * t as real
    ensures (1000 * t) as real * percent == (99900 * t) as real + e
  {
    e := 400.0 * t as real / 70368744177664.0;
  }

  lemma RankIsQuotient(fl: real -> real, n: nat, e: real, x: real)
    requires RoundsToNearest(fl) && n <= RANKED && n as real * fl(99.9) == x + e
    ensures Rank(fl, n, 999) == Over(fl, fl(x + e), 100.0)
  {
    IntegerIsExact(fl, n);
    assert Over(fl, 999.0, 10.0) == fl(99.9) by { assert 999.0 / 10.0 == 99.9; }
    TimesIs(fl, n as real, fl(99.9), x + e);
  }

  lemma QuotientOfUp(fl: real -> real, t: nat, a: nat, d: nat, n: nat, e: real, g: real)
    requires RoundsToNearest(fl) && a <= 46 && d == Pow(2, a) && n == Pow(2, 52 - a) && n > 0
    requires d < 99900 * t < 2 * d && 1000 * t <= RANKED && g * (n as real) == 1.0
    requires 0.0 < e < g <= 0.015625 && g < 2.0 * e
    ensures Over(fl, fl((99900 * t) as real + e), 100.0) > (999 * t) as real
  {
    ExcessUp(fl, 99900 * t, a, d, n, e, g);
    ErrorBelow47(fl, (99900 * t) as real + e);
    NextQuotient(999 * t, a, d, n, g);
    QuotientAbove(fl, 999 * t, g, fl((99900 * t) as real + e));
  }

  lemma QuotientOfDown(fl: real -> real, t: nat, a: nat, d: nat, n: nat, e: real, g: real)
    requires RoundsToNearest(fl) && a <= 46 && d == Pow(2, a) && n == Pow(2, 52 - a) && n > 0
    requires d < 99900 * t && 1000 * t <= RANKED && g * (n as real) == 1.0
    requires 0.0 < e && 2.0 * e < g <= 0.015625
    ensures Over(fl, fl((99900 * t) as real + e), 100.0) == (999 * t) as real
  {
    ExcessDown(fl, 99900 * t, a, d, n, e, g);
    QuotientExact(fl, 999 * t);
  }

  lemma RankOfThousands(fl: real -> real, t: nat, a: nat, d: nat)
    requires RoundsToNearest(fl) && 1 <= t && 1000 * t <= RANKED && a <= 46 && d == Pow(2, a)
    requires d < 99900 * t < 2 * d && d != 51200 * t
    ensures if d < 51200 * t then Rank(fl, 1000 * t, 999) > (999 * t) as real
            else Rank(fl, 1000 * t, 999) == (999 * t) as real
  {
    hide Pow, RoundsToNearest;
    var n := Pow(2, 52 - a);
    var g := GridStep(a, n);
    LiteralExact(fl);
    var e := ThousandTimesLiteral(t, fl(99.9));
    RankIsQuotient(fl, 1000 * t, e, (99900 * t) as real);
    StepAgainstExcess(t, a, d, n, e, g);
    if d < 51200 * t {
      QuotientOfUp(fl, t, a, d, n, e, g);
    } else {
      QuotientOfDown(fl, t, a, d, n, e, g);
    }
  }

  lemma ThousandsStart(t: nat) returns (a: nat)
    requires 1 <= t && 1000 * t <= RANKED
    ensures a <= 46 && Pow(2, a) < 99900 * t < 2 * Pow(2, a) && Pow(2, a) != 51200 * t
    ensures PowerBetween(t) <==> Pow(2, a) < 51200 * t
  {
    a := Log2(99900 * t);
    PowerIsLog(t, a);
    NotThatPower(t, a);
    GridPowers();
    if a > 46 { PowMonotone(47, a); }
  }

  lemma NoRank(fl: real -> real)
    requires RoundsToNearest(fl)
    ensures Rank(fl, 0, 999) == 0.0
  {
    IntegerIsExact(fl, 0);
    RankIsQuotient(fl, 0, 0.0, 0.0);
  }

  lemma RankAtThousands(fl: real -> real, t: nat)
    requires RoundsToNearest(fl) && 1000 * t <= RANKED
    ensures Ceil(Rank(fl, 1000 * t, 999)) == 999 * t + if PowerBetween(t) then 1 else 0
    ensures CeilDiv(1000 * t * 999, 1000) == 999 * t
  {
    LastRank(fl, 1000 * t);
    if t == 0 {
      NoRank(fl);
    } else {
      var a := ThousandsStart(t);
      RankOfThousands(fl, t, a, Pow(2, a));
    }
  }

  /** For 99.9 the computed rank is one too high exactly when the length is a
      multiple of 1000 and a power of two lies strictly between 49.95 and 51.2
      times it; for any other length it is exact. */
  lemma LastRankExactly(fl: real -> real, n: nat)
    requires RoundsToNearest(fl) && n <= RANKED
    ensures Ceil(Rank(fl, n, 999)) == CeilDiv(n * 999, 1000) + if OneTooHigh(n) then 1 else 0
  {
    LastRank(fl, n);
    if n % 1000 == 0 {
      RankAtThousands(fl, n / 1000);
    }
  }

  /** 41,000 is such a length: the source computes the rank 40,960 where 40,959 is right. */
  lemma RankTooHigh(fl: real -> real)
    requires RoundsToNearest(fl)
    ensures Ceil(Rank(fl, 41000, 999)) == 40960 && CeilDiv(41000 * 999, 1000) == 40959
  {
    Powers();
    PowAdd(2, 12, 6);
    PowAdd(2, 18, 3);
    assert Pow(2, 3) == 8 && 49950 * 41 < Pow(2, 21) < 51200 * 41;
    LastRankExactly(fl, 41000);
  }
}
