/** The integer facts behind `math.gcd`, `math.lcm` and Python's `%` with a positive modulus,
    on which Dafny's Euclidean `%` agrees. */
module NumberTheory {

  /** `z` is a multiple of `m`. */
  ghost predicate Divides(m: int, z: int) {
    exists k: int :: IsProduct(m, k, z)
  }

  ghost predicate IsProduct(m: int, k: int, z: int) {
    z == m * k
  }

  ghost predicate Congruent(m: int, y: int, z: int) {
    Divides(m, y - z)
  }

  /** Euclid's algorithm, the value of `math.gcd` on non-negative arguments. */
  function Gcd(a: nat, b: nat): (g: nat)
    decreases b
  {
    if b == 0 then a else Gcd(b, a % b)
  }

  /** `math.lcm` on positive arguments. */
  function Lcm(a: nat, b: nat): (l: nat)
    requires a > 0 && b > 0
  {
    GcdPositive(a, b);
    a * b / Gcd(a, b)
  }

  lemma {:induction false} GcdPositive(a: nat, b: nat)
    requires a > 0 || b > 0
    ensures Gcd(a, b) > 0
    decreases b
  {
    if b > 0 {
      GcdPositive(b, a % b);
    }
  }

  lemma SmallMultiple(m: int, k: int, r: int)
    requires m > 0 && m * k == r && -m < r < m
    ensures k == 0
  {
  }

  lemma MultipleDivides(m: int, k: int)
    ensures Divides(m, m * k)
  {
    assert IsProduct(m, k, m * k);
  }

  lemma Quotient(m: int, z: int) returns (k: int)
    requires Divides(m, z)
    ensures z == m * k
  {
    k :| IsProduct(m, k, z);
  }

  lemma DivMod(z: int, m: int) returns (q: int, r: nat)
    requires m > 0
    ensures z == m * q + r && r < m && r == z % m && q == z / m
  {
    q, r := z / m, z % m;
  }

  /** Two integers leave the same remainder exactly when their difference is a multiple. */
  lemma SameRemainder(m: int, y: int, z: int)
    requires m > 0
    ensures y % m == z % m <==> Congruent(m, y, z)
  {
    var p, a := DivMod(y, m);
    var q, b := DivMod(z, m);
    RemaindersDiffer(m, p, a, q, b, y, z);
  }

  lemma RemaindersDiffer(m: int, p: int, a: int, q: int, b: int, y: int, z: int)
    requires 0 <= a < m && 0 <= b < m && y == m * p + a && z == m * q + b
    ensures a == b <==> Divides(m, y - z)
  {
    Distribute(m, p, q);
    if a == b {
      assert IsProduct(m, p - q, y - z);
    }
    if Divides(m, y - z) {
      var k := Quotient(m, y - z);
      Distribute(m, k, p - q);
      SmallMultiple(m, k - (p - q), a - b);
    }
  }

  lemma Distribute(m: int, x: int, y: int)
    ensures m * (x - y) == m * x - m * y
    ensures m * (x + y) == m * x + m * y
  {
  }

  lemma DividesRemainder(m: int, z: int)
    requires m > 0
    ensures Divides(m, z) <==> z % m == 0
  {
    SameRemainder(m, z, 0);
  }

  lemma DividesSum(m: int, y: int, z: int)
    requires Divides(m, y) && Divides(m, z)
    ensures Divides(m, y + z) && Divides(m, y - z)
  {
    var p := Quotient(m, y);
    var q := Quotient(m, z);
    assert IsProduct(m, p + q, y + z);
    assert IsProduct(m, p - q, y - z);
  }

  lemma CongruentReflexive(m: int, z: int)
    ensures Congruent(m, z, z)
  {
    assert IsProduct(m, 0, z - z);
  }

  /** Replacing one side of a congruence by a congruent value. */
  lemma CongruentReplace(m: int, y: int, z: int, r: int)
    requires Congruent(m, z, r)
    ensures Congruent(m, y, z) <==> Congruent(m, y, r)
  {
    if Congruent(m, y, z) {
      DividesSum(m, y - z, z - r);
    }
    if Congruent(m, y, r) {
      DividesSum(m, y - r, z - r);
    }
  }

  lemma RemainderIs(m: int, z: int, r: int)
    requires 0 <= r < m
    ensures z % m == r <==> Congruent(m, z, r)
  {
    SameRemainder(m, z, r);
  }

  lemma DividesTransitive(l: int, m: int, z: int)
    requires Divides(l, m) && Divides(m, z)
    ensures Divides(l, z)
  {
    var p := Quotient(l, m);
    var q := Quotient(m, z);
    assert (l * p) * q == l * (p * q);
    assert IsProduct(l, p * q, z);
  }

  /** `g == Gcd(a, b)` with both cofactors and Bezout's coefficients: all that the proofs below use. */
  ghost predicate GcdWitness(a: int, b: int, g: int, a': int, b': int, x: int, y: int) {
    && g > 0
    && a == g * a'
    && b == g * b'
    && a * x + b * y == g
  }

  lemma {:induction false} GcdWitnesses(a: nat, b: nat) returns (a': int, b': int, x: int, y: int)
    requires a > 0 || b > 0
    ensures GcdWitness(a, b, Gcd(a, b), a', b', x, y)
    decreases b
  {
    if b == 0 {
      a', b', x, y := 1, 0, 1, 0;
    } else {
      var q, r := a / b, a % b;
      assert a == b * q + r;
      var p1, p2, u, v := GcdWitnesses(b, r);
      a', b', x, y := q * p1 + p2, p1, v, u - q * v;
      GcdStep(a, b, q, r, Gcd(b, r), p1, p2, u, v);
    }
  }

  lemma GcdStep(a: int, b: int, q: int, r: int, g: int, p1: int, p2: int, u: int, v: int)
    requires a == b * q + r
    requires GcdWitness(b, r, g, p1, p2, u, v)
    ensures GcdWitness(a, b, g, q * p1 + p2, p1, v, u - q * v)
  {
  }

  lemma GcdDivides(a: nat, b: nat)
    requires a > 0 || b > 0
    ensures Gcd(a, b) > 0 && Divides(Gcd(a, b), a) && Divides(Gcd(a, b), b)
  {
    var a', b', x, y := GcdWitnesses(a, b);
    MultipleDivides(Gcd(a, b), a');
    MultipleDivides(Gcd(a, b), b');
  }

  lemma PositiveCofactor(g: int, x: int)
    requires g > 0 && g * x > 0
    ensures x > 0
  {
  }

  lemma ExactQuotient(g: int, x: int)
    requires g > 0
    ensures g * x / g == x
  {
    var q, r := DivMod(g * x, g);
    Distribute(g, x, q);
    SmallMultiple(g, x - q, r);
  }

  lemma LcmShape(a: nat, b: nat, g: int, a': int, b': int, x: int, y: int)
    requires a > 0 && b > 0
    requires g == Gcd(a, b) && GcdWitness(a, b, g, a', b', x, y)
    ensures a' > 0 && b' > 0
    ensures Lcm(a, b) == a * b' == b * a' > 0
    ensures b / g == b'
  {
    PositiveCofactor(g, a');
    PositiveCofactor(g, b');
    Cofactors(a, b, g, a', b');
    ExactQuotient(g, a * b');
    ExactQuotient(g, b');
    MonotoneProduct(a, 1, b');
  }

  lemma Cofactors(a: int, b: int, g: int, a': int, b': int)
    requires a == g * a' && b == g * b'
    ensures a * b == g * (a * b') && a * b' == b * a'
  {
  }

  /** The common multiples of `a` and `b` are exactly the multiples of `Lcm(a, b)`. */
  lemma LcmIsLeastCommonMultiple(a: nat, b: nat, z: int)
    requires a > 0 && b > 0
    ensures Lcm(a, b) > 0
    ensures Divides(Lcm(a, b), z) <==> Divides(a, z) && Divides(b, z)
  {
    var g, l := Gcd(a, b), Lcm(a, b);
    var a', b', x, y := GcdWitnesses(a, b);
    LcmShape(a, b, g, a', b', x, y);
    if Divides(l, z) {
      MultipleDivides(a, b');
      MultipleDivides(b, a');
      DividesTransitive(a, l, z);
      DividesTransitive(b, l, z);
    }
    if Divides(a, z) && Divides(b, z) {
      var p := Quotient(a, z);
      var q := Quotient(b, z);
      CommonMultiple(a, b, g, a', b', x, y, z, p, q);
      assert IsProduct(l, x * q + y * p, z);
    }
  }

  lemma CommonMultiple(a: int, b: int, g: int, a': int, b': int, x: int, y: int, z: int, p: int, q: int)
    requires GcdWitness(a, b, g, a', b', x, y)
    requires z == a * p && z == b * q
    ensures z == a * b' * (x * q + y * p)
  {
  }

  /** Two congruences with a common solution have residues that agree modulo the gcd. */
  lemma SolvableMeansGcd(m: nat, r: int, n: nat, s: int, z: int)
    requires m > 0 && n > 0
    requires Congruent(m, z, r) && Congruent(n, z, s)
    ensures Congruent(Gcd(m, n), s, r)
  {
    GcdDivides(m, n);
    var g := Gcd(m, n);
    DividesTransitive(g, m, z - r);
    DividesTransitive(g, n, z - s);
    DividesSum(g, z - r, z - s);
  }

  /** Conversely, residues that agree modulo the gcd are met by the arithmetic progression from
      `r` by steps of `m`, before that progression leaves `[r, r + Lcm(m, n))`. */
  lemma SearchHits(m: nat, r: int, n: nat, s: int) returns (k: nat)
    requires m > 0 && n > 0 && Congruent(Gcd(m, n), s, r)
    ensures m * k + m <= Lcm(m, n)
    ensures Congruent(n, r + m * k, s)
  {
    var g := Gcd(m, n);
    var m', n', x, y := GcdWitnesses(m, n);
    LcmShape(m, n, g, m', n', x, y);
    var d := Quotient(g, s - r);
    var q, k' := DivMod(x * d, n');
    k := k';
    ProgressionMeets(m, n, g, m', n', x, y, r, s, d, q, k);
    assert IsProduct(n, -(y * d + m' * q), r + m * k - s);
    MonotoneProduct(m, k + 1, n');
    Distribute(m, k, 1);
  }

  lemma MonotoneProduct(m: int, x: int, y: int)
    requires m > 0 && x <= y
    ensures m * x <= m * y
  {
  }

  lemma ProgressionMeets(m: int, n: int, g: int, m': int, n': int, x: int, y: int,
                         r: int, s: int, d: int, q: int, k: int)
    requires GcdWitness(m, n, g, m', n', x, y)
    requires s - r == g * d
    requires x * d == n' * q + k
    ensures r + m * k - s == n * -(y * d + m' * q)
  {
  }
}
