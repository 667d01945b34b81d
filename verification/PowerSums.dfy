/** Sums of powers modulo a prime, and why some x * x + c fails Euler's test whenever c is not zero:
    the random search of curveSqrt always has a number to find. */
module PowerSums {
  import opened Words
  import opened NumberTheory

  // ---------------------------------------------------------------- the binomial of c + a

  /** The first terms of the expansion of (c + a) to the n. */
  function Expansion(n: nat, a: int, c: int, j: nat): int
    requires j <= n
  {
    Choose(n, j) * (Pow(a, j) * Pow(c, n - j)) + if j == 0 then 0 else Expansion(n, a, c, j - 1)
  }

  lemma {:induction false} ExpansionShift(n: nat, a: int, c: int, j: nat)
    requires j <= n
    ensures (c + a) * Expansion(n, a, c, j)
         == Expansion(n + 1, a, c, j) + Choose(n, j) * (Pow(a, j + 1) * Pow(c, n - j))
  {
    hide Choose;
    TermsOf(n, j);
    PowNext(a, j);
    PowNext(c, n - j);
    if j > 0 {
      ExpansionShift(n, a, c, j - 1);
      ShiftStep(a, c, Choose(n, j - 1), Choose(n, j), Pow(a, j), Pow(c, n - j),
                Expansion(n, a, c, j - 1), Expansion(n + 1, a, c, j - 1));
    } else {
      ShiftBase(a, c, Pow(c, n), Pow(c, n + 1));
    }
  }

  lemma TermsOf(n: nat, j: nat)
    ensures Choose(n, 0) == 1 && Choose(n + 1, 0) == 1
    ensures j > 0 ==> Choose(n + 1, j) == Choose(n, j - 1) + Choose(n, j)
  {}

  lemma PowNext(a: int, e: nat)
    ensures Pow(a, e + 1) == a * Pow(a, e) && Pow(a, 0) == 1
  {}

  lemma ShiftBase(a: int, c: int, x: int, y: int)
    requires y == c * x
    ensures (c + a) * (1 * (1 * x)) == 1 * (1 * y) + 1 * ((a * 1) * x)
  {}

  lemma ShiftStep(a: int, c: int, d: int, e: int, x: int, y: int, s: int, t: int)
    requires (c + a) * s == t + d * (x * (c * y))
    ensures (c + a) * (e * (x * y) + s) == ((d + e) * (x * (c * y)) + t) + e * ((a * x) * y)
  {
    var z := x * y;
    assert x * (c * y) == c * z && (a * x) * y == a * z;
    assert (c + a) * (e * z + s) == c * (e * z) + a * (e * z) + (c + a) * s;
    assert c * (e * z) == e * (c * z) && a * (e * z) == e * (a * z);
    assert (d + e) * (c * z) == d * (c * z) + e * (c * z);
  }

  lemma {:induction false} Expand(n: nat, a: int, c: int)
    ensures Pow(c + a, n) == Expansion(n, a, c, n)
  {
    hide Choose;
    ChooseEnds(n, n);
    PowNext(c, 0);
    if n > 0 {
      Expand(n - 1, a, c);
      ExpansionShift(n - 1, a, c, n - 1);
      ChooseEnds(n - 1, n - 1);
      PowNext(c + a, n - 1);
    } else {
      PowNext(a, 0);
    }
  }

  // ---------------------------------------------------------------- sums of powers

  /** 0^k + 1^k + ... + (n-1)^k. */
  function PowerSum(k: nat, n: nat): int {
    if n == 0 then 0 else PowerSum(k, n - 1) + Pow(n - 1, k)
  }

  function Weighted(m: nat, j: nat, n: nat): int {
    Choose(m, j) * PowerSum(j, n) + if j == 0 then 0 else Weighted(m, j - 1, n)
  }

  lemma {:induction false} WeightedNext(m: nat, j: nat, n: nat)
    ensures Weighted(m, j, n + 1) == Weighted(m, j, n) + Terms(m, n, j)
    ensures Weighted(m, j, 0) == 0
  {
    hide Choose, Pow;
    Spread(Choose(m, j), PowerSum(j, n), Pow(n, j));
    assert PowerSum(j, 0) == 0;
    if j > 0 { WeightedNext(m, j - 1, n); }
  }

  lemma Spread(d: int, s: int, x: int)
    ensures d * (s + x) == d * s + d * x && d * 0 == 0
  {}

  lemma {:induction false} Telescoped(k: nat, n: nat)
    ensures Pow(n, k + 1) == Weighted(k + 1, k, n)
    decreases n
  {
    hide Choose, Terms, Weighted, Pow;
    WeightedNext(k + 1, k, if n == 0 then 0 else n - 1);
    if n == 0 {
      PowNext(0, k);
    } else {
      Telescoped(k, n - 1);
      Binomial(k + 1, n - 1);
      LastTerm(k + 1, n - 1);
    }
  }

  lemma {:induction false} ChooseAlmost(k: nat)
    ensures Choose(k + 1, k) == k + 1
  {
    if k > 0 {
      ChooseAlmost(k - 1);
      ChooseEnds(k, k);
    }
  }

  lemma {:induction false} SumsVanish(p: int, m: nat, j: nat)
    requires Prime(p) && j < p - 1
    ensures Cong(Weighted(m, j, p), 0, p) && Cong(PowerSum(j, p), 0, p)
    decreases j, 1
  {
    hide Choose, Cong, PowerSum;
    SumVanishes(p, j);
    CongSame(Choose(m, j), p);
    CongMul(Choose(m, j), Choose(m, j), PowerSum(j, p), 0, p);
    CongSame(0, p);
    if j > 0 { SumsVanish(p, m, j - 1); }
    CongAdd(Choose(m, j) * PowerSum(j, p), 0, if j == 0 then 0 else Weighted(m, j - 1, p), 0, p);
  }

  /** A sum of k-th powers over all residues vanishes below p - 1. */
  lemma {:induction false} SumVanishes(p: int, k: nat)
    requires Prime(p) && k < p - 1
    ensures Cong(PowerSum(k, p), 0, p)
    decreases k, 0
  {
    hide Choose, PowerSum, Divides;
    Telescoped(k, p);
    PowNext(p, k);
    DividesMake(p, Pow(p, k + 1), Pow(p, k));
    ChooseAlmost(k);
    CongSame(0, p);
    if k > 0 { SumsVanish(p, k + 1, k - 1); }
    var rest := if k == 0 then 0 else Weighted(k + 1, k - 1, p);
    CongAdd(Pow(p, k + 1), 0, rest, 0, p);
    assert Pow(p, k + 1) - rest == (k + 1) * PowerSum(k, p);
    Euclid(p, k + 1, PowerSum(k, p));
  }

  /** At p - 1 every residue but zero counts one. */
  lemma {:induction false} TopSum(p: int, n: nat)
    requires Prime(p) && 1 <= n <= p
    ensures Cong(PowerSum(p - 1, n), n - 1, p)
    decreases n
  {
    hide Cong, Prime, Pow;
    PrimeBeyond1(p);
    if n == 1 {
      PowNext(0, p - 2);
      assert PowerSum(p - 1, 0) == 0;
      CongSame(0, p);
    } else {
      TopSum(p, n - 1);
      UnitPower(p, n - 1);
      CongAdd(PowerSum(p - 1, n - 1), n - 2, Pow(n - 1, p - 1), 1, p);
    }
  }

  lemma UnitPower(p: int, x: nat)
    requires Prime(p) && 0 < x < p
    ensures Cong(Pow(x, p - 1), 1, p)
  {
    hide Prime, Divides;
    PrimeBeyond1(p);
    Fermat(p, x);
    PowNext(x, p - 1);
    assert x * Pow(x, p - 1) - x == x * (Pow(x, p - 1) - 1);
    Euclid(p, x, Pow(x, p - 1) - 1);
  }

  // ---------------------------------------------------------------- the sum of (x * x + c)^e

  function ShiftedSum(c: int, e: nat, n: nat): int {
    if n == 0 then 0 else ShiftedSum(c, e, n - 1) + Pow(c + (n - 1) * (n - 1), e)
  }

  function Expanded(c: int, e: nat, j: nat, n: nat): int
    requires j <= e
  {
    Choose(e, j) * (PowerSum(2 * j, n) * Pow(c, e - j)) + if j == 0 then 0 else Expanded(c, e, j - 1, n)
  }

  lemma {:induction false} ExpandedNext(c: int, e: nat, j: nat, n: nat)
    requires j <= e
    ensures Expanded(c, e, j, n + 1) == Expanded(c, e, j, n) + Expansion(e, n * n, c, j)
    ensures Expanded(c, e, j, 0) == 0
  {
    hide Choose, Pow;
    PowSquare(n, j);
    AddInside(Choose(e, j), PowerSum(2 * j, n), Pow(n, 2 * j), Pow(c, e - j));
    assert PowerSum(2 * j, 0) == 0;
    if j > 0 { ExpandedNext(c, e, j - 1, n); }
  }

  lemma AddInside(d: int, s: int, x: int, y: int)
    ensures d * ((s + x) * y) == d * (s * y) + d * (x * y) && d * (0 * y) == 0
  {
    assert (s + x) * y == s * y + x * y;
  }

  lemma {:induction false} SumExpanded(c: int, e: nat, n: nat)
    ensures ShiftedSum(c, e, n) == Expanded(c, e, e, n)
    decreases n
  {
    hide Expanded, Expansion, Pow;
    ExpandedNext(c, e, e, if n == 0 then 0 else n - 1);
    if n > 0 {
      SumExpanded(c, e, n - 1);
      Expand(e, (n - 1) * (n - 1), c);
    }
  }

  lemma {:induction false} LowerVanish(p: int, c: int, e: nat, j: nat)
    requires Prime(p) && j < e && 2 * e == p - 1
    ensures Cong(Expanded(c, e, j, p), 0, p)
    decreases j
  {
    hide Choose, Cong, PowerSum, Pow, Prime;
    PrimeBeyond1(p);
    SumVanishes(p, 2 * j);
    var d, y := Choose(e, j), Pow(c, e - j);
    CongSame(d, p);
    CongSame(y, p);
    CongSame(0, p);
    CongMul(PowerSum(2 * j, p), 0, y, y, p);
    CongMul(d, d, PowerSum(2 * j, p) * y, 0, p);
    if j > 0 { LowerVanish(p, c, e, j - 1); }
    CongAdd(d * (PowerSum(2 * j, p) * y), 0, if j == 0 then 0 else Expanded(c, e, j - 1, p), 0, p);
  }

  /** Over all residues Euler's tests of x * x + c add up to -1. */
  lemma ShiftedSumMinusOne(p: int, c: int, e: nat)
    requires Prime(p) && p > 2 && 2 * e == p - 1
    ensures Cong(ShiftedSum(c, e, p), -1, p)
  {
    hide Choose, Cong, PowerSum, Pow, Prime, Divides;
    SumExpanded(c, e, p);
    LowerVanish(p, c, e, e - 1);
    TopSum(p, p);
    ChooseEnds(e, e);
    PowNext(c, 0);
    DividesMake(p, p, 1);
    MinusOne(p);
    CongTrans(PowerSum(p - 1, p), p - 1, -1, p);
    CongAdd(PowerSum(2 * e, p), -1, Expanded(c, e, e - 1, p), 0, p);
  }

  // ---------------------------------------------------------------- counting zeros

  /** How many of the first n squares x * x + c vanish modulo p. */
  function Zeros(p: int, c: int, n: nat): nat
    requires p > 0
  {
    if n == 0 then 0 else Zeros(p, c, n - 1) + if (c + (n - 1) * (n - 1)) % p == 0 then 1 else 0
  }

  lemma {:induction false} ZerosMany(p: int, c: int, n: nat, x: nat, y: nat)
    requires p > 0 && x < n && y < n && x != y && (c + x * x) % p == 0 && (c + y * y) % p == 0
    ensures Zeros(p, c, n) >= 2
  {
    if x < n - 1 && y < n - 1 {
      ZerosMany(p, c, n - 1, x, y);
    } else {
      ZerosSome(p, c, n - 1, if x < y then x else y);
    }
  }

  lemma {:induction false} ZerosSome(p: int, c: int, n: nat, x: nat)
    requires p > 0 && x < n && (c + x * x) % p == 0
    ensures Zeros(p, c, n) >= 1
  {
    if x < n - 1 { ZerosSome(p, c, n - 1, x); }
  }

  lemma {:induction false} ZerosFind(p: int, c: int, n: nat) returns (x: nat)
    requires p > 0 && Zeros(p, c, n) > 0
    ensures x < n && (c + x * x) % p == 0
  {
    if (c + (n - 1) * (n - 1)) % p == 0 { return n - 1; }
    x := ZerosFind(p, c, n - 1);
  }

  /** Roots come in pairs when c is not zero. */
  lemma NotOneZero(p: int, c: int)
    requires p > 2 && p % 2 == 1 && c % p != 0
    ensures Zeros(p, c, p) != 1
  {
    if Zeros(p, c, p) == 1 {
      var x := ZerosFind(p, c, p);
      OtherRoot(p, c, x);
      ZerosMany(p, c, p, x, p - x);
    }
  }

  lemma OtherRoot(p: int, c: int, x: nat)
    requires p > 2 && p % 2 == 1 && c % p != 0 && x < p && (c + x * x) % p == 0
    ensures 0 < p - x < p && p - x != x && (c + (p - x) * (p - x)) % p == 0
  {
    assert 0 * 0 == 0;
    assert (c + (p - x) * (p - x)) - (c + x * x) == p * (p - 2 * x);
    DividesMake(p, (c + (p - x) * (p - x)) - (c + x * x), p - 2 * x);
    CongMod(c + (p - x) * (p - x), c + x * x, p);
  }

  // ---------------------------------------------------------------- Euler's test

  /** The test gives 0, 1 or -1, and 0 exactly for 0. */
  lemma TestValue(p: int, d: int, e: nat)
    requires Prime(p) && p > 2 && 2 * e == p - 1
    ensures var r := Pow(d, e) % p; (r == 0 <==> d % p == 0) && (r == 0 || r == 1 || r == p - 1)
  {
    hide Cong, Prime, Pow, Divides;
    var m := d % p;
    CongSame(d, p);
    PowCong(d, m, e, p);
    CongMod(Pow(d, e), Pow(m, e), p);
    if m == 0 {
      PowNext(0, e - 1);
    } else {
      UnitPower(p, m);
      PowAdd(m, e, e);
      SquareIsOne(p, Pow(m, e));
    }
  }

  lemma SquareIsOne(p: int, x: int)
    requires Prime(p) && p > 2 && Cong(x * x, 1, p)
    ensures x % p == 1 || x % p == p - 1
  {
    hide Cong, Prime;
    var r := x % p;
    CongSame(x, p);
    CongMul(r, x, r, x, p);
    CongTrans(r * r, x * x, 1 * 1, p);
    TwoRoots(p, r, 1);
  }

  lemma {:induction false} ZerosBound(p: int, c: int, n: nat)
    requires p > 0
    ensures Zeros(p, c, n) <= n
  {
    if n > 0 { ZerosBound(p, c, n - 1); }
  }

  /** Were no test -1, they would add up to the number of those that are 1. */
  lemma {:induction false} SumWithout(p: int, c: int, e: nat, n: nat)
    requires Prime(p) && p > 2 && 2 * e == p - 1
    requires forall x: nat :: x < n ==> Pow(c + x * x, e) % p != p - 1
    ensures Cong(ShiftedSum(c, e, n), n - Zeros(p, c, n), p)
    decreases n
  {
    hide Cong, Prime, Pow;
    CongSame(0, p);
    if n > 0 {
      SumWithout(p, c, e, n - 1);
      var d := c + (n - 1) * (n - 1);
      TestValue(p, d, e);
      CongSame(Pow(d, e), p);
      var r := Pow(d, e) % p;
      CongAdd(ShiftedSum(c, e, n - 1), n - 1 - Zeros(p, c, n - 1), Pow(d, e), r, p);
    }
  }

  /** Some x * x + c fails the test whenever c is not zero. */
  lemma SomeFails(p: int, c: int, e: nat)
    requires Prime(p) && p > 2 && 2 * e == p - 1 && c % p != 0
    ensures exists x: nat :: x < p && Pow(c + x * x, e) % p == p - 1
  {
    hide Cong, Prime, Pow, Zeros, ShiftedSum;
    if forall x: nat :: x < p ==> Pow(c + x * x, e) % p != p - 1 {
      SumWithout(p, c, e, p);
      ShiftedSumMinusOne(p, c, e);
      var z := Zeros(p, c, p);
      CongSym(ShiftedSum(c, e, p), p - z, p);
      CongTrans(p - z, ShiftedSum(c, e, p), -1, p);
      ZerosBound(p, c, p);
      OneOnly(p, z);
      NotOneZero(p, c);
    }
  }

  lemma OneOnly(p: int, z: nat)
    requires p > 2 && z <= p && Cong(p - z, -1, p)
    ensures z == 1
  {
    hide Divides;
    var i := DividesPart(p, p - z + 1);
    NotPositive(p, i);
    if i >= 2 { Multiple(p, i - 1); }
    assert i == 1;
  }
}
