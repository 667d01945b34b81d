/** Arithmetic modulo a number: what the point decoding of crypto/encode.go rests on. */
module NumberTheory {
  import opened Words

  // ---------------------------------------------------------------- congruence

  predicate Divides(m: int, a: int)
    requires m > 0
  {
    a % m == 0
  }

  predicate Cong(a: int, b: int, m: int)
    requires m > 0
  {
    Divides(m, a - b)
  }

  lemma DividesMake(m: int, a: int, i: int)
    requires m > 0 && a == m * i
    ensures Divides(m, a)
  {
    var q, r := a / m, a % m;
    assert m * (i - q) == r by { assert a == m * q + r; }
    if i > q { Multiple(m, i - q); }
    if i < q { Multiple(m, q - i); }
  }

  lemma DividesPart(m: int, a: int) returns (i: int)
    requires m > 0 && Divides(m, a)
    ensures a == m * i
  {
    i := a / m;
  }

  lemma CongSame(a: int, m: int)
    requires m > 0
    ensures Cong(a, a, m) && Cong(a % m, a, m) && Cong(a, a % m, m)
  {
    hide Divides;
    DividesMake(m, 0, 0);
    var q := a / m;
    DividesMake(m, a % m - a, -q);
    DividesMake(m, a - a % m, q);
  }

  lemma CongSym(a: int, b: int, m: int)
    requires m > 0 && Cong(a, b, m)
    ensures Cong(b, a, m)
  {
    hide Divides;
    var i := DividesPart(m, a - b);
    DividesMake(m, b - a, -i);
  }

  lemma CongTrans(a: int, b: int, c: int, m: int)
    requires m > 0 && Cong(a, b, m) && Cong(b, c, m)
    ensures Cong(a, c, m)
  {
    hide Divides;
    var i := DividesPart(m, a - b);
    var j := DividesPart(m, b - c);
    DividesMake(m, a - c, i + j);
  }

  lemma CongAdd(a: int, b: int, c: int, d: int, m: int)
    requires m > 0 && Cong(a, b, m) && Cong(c, d, m)
    ensures Cong(a + c, b + d, m) && Cong(a - c, b - d, m)
  {
    hide Divides;
    var i := DividesPart(m, a - b);
    var j := DividesPart(m, c - d);
    DividesMake(m, a + c - (b + d), i + j);
    DividesMake(m, a - c - (b - d), i - j);
  }

  lemma CongMul(a: int, b: int, c: int, d: int, m: int)
    requires m > 0 && Cong(a, b, m) && Cong(c, d, m)
    ensures Cong(a * c, b * d, m)
  {
    hide Divides;
    var i := DividesPart(m, a - b);
    var j := DividesPart(m, c - d);
    MulShift(a, b, c, d, m, i, j);
    DividesMake(m, a * c - b * d, i * c + b * j);
  }

  lemma MulShift(a: int, b: int, c: int, d: int, m: int, i: int, j: int)
    requires a - b == m * i && c - d == m * j
    ensures a * c - b * d == m * (i * c + b * j)
  {
    assert a * c - b * c == (a - b) * c;
    assert b * c - b * d == b * (c - d);
    assert (m * i) * c == m * (i * c);
    assert b * (m * j) == m * (b * j);
  }

  /** Two reduced numbers that are congruent are equal. */
  lemma CongReduced(a: int, b: int, m: int)
    requires 0 <= a < m && 0 <= b < m && Cong(a, b, m)
    ensures a == b
  {
    hide Divides;
    var i := DividesPart(m, a - b);
    if i >= 1 { Multiple(m, i); }
    if i <= -1 { Multiple(m, -i); }
  }

  lemma CongMod(a: int, b: int, m: int)
    requires m > 0
    ensures Cong(a, b, m) <==> a % m == b % m
  {
    hide Divides;
    CongSame(a, m);
    CongSame(b, m);
    if Cong(a, b, m) {
      CongTrans(a % m, a, b, m);
      CongTrans(a % m, b, b % m, m);
      CongReduced(a % m, b % m, m);
    } else if a % m == b % m {
      CongTrans(a, a % m, b, m);
    }
  }

  // ---------------------------------------------------------------- powers

  function Pow(a: int, e: nat): int {
    if e == 0 then 1 else a * Pow(a, e - 1)
  }

  lemma {:induction false} PowAdd(a: int, d: nat, e: nat)
    ensures Pow(a, d + e) == Pow(a, d) * Pow(a, e)
  {
    if d > 0 {
      PowAdd(a, d - 1, e);
      Times3(a, Pow(a, d - 1), Pow(a, e));
    }
  }

  lemma Times3(a: int, b: int, c: int)
    ensures a * (b * c) == (a * b) * c
  {}

  /** Squaring the base doubles the exponent. */
  lemma {:induction false} PowSquare(a: int, e: nat)
    ensures Pow(a * a, e) == Pow(a, 2 * e)
  {
    if e > 0 {
      PowSquare(a, e - 1);
      PowTwice(a, 2 * e - 2);
    }
  }

  lemma PowTwice(a: int, e: nat)
    ensures Pow(a, e + 2) == (a * a) * Pow(a, e)
  {
    Times3(a, a, Pow(a, e));
  }

  lemma {:induction false} PowCong(a: int, b: int, e: nat, m: int)
    requires m > 0 && Cong(a, b, m)
    ensures Cong(Pow(a, e), Pow(b, e), m)
  {
    hide Cong;
    CongSame(1, m);
    if e > 0 {
      PowCong(a, b, e - 1, m);
      CongMul(a, b, Pow(a, e - 1), Pow(b, e - 1), m);
    }
  }

  // ---------------------------------------------------------------- primes

  predicate Prime(p: int) {
    p > 1 && forall d :: 1 < d < p ==> p % d != 0
  }

  lemma PrimeBeyond1(p: int)
    requires Prime(p)
    ensures p > 1
  {}

  lemma MinusOne(p: int)
    requires p > 0
    ensures Cong(p - 1, -1, p)
  {
    DividesMake(p, p, 1);
  }

  /** A prime that divides a product divides a factor. */
  lemma {:induction false} Euclid(p: int, a: int, b: int)
    requires Prime(p) && 0 < a < p && Divides(p, a * b)
    ensures Divides(p, b)
    decreases a
  {
    hide Divides;
    if a == 1 {
    } else {
      var q, r := p / a, p % a;
      var i := DividesPart(p, a * b);
      Remainder(p, a, b, q, r, i);
      DividesMake(p, r * b, b - q * i);
      Euclid(p, r, b);
    }
  }

  lemma Remainder(p: int, a: int, b: int, q: int, r: int, i: int)
    requires p == a * q + r && a * b == p * i
    ensures r * b == p * (b - q * i)
  {
    assert r * b == p * b - (a * q) * b;
    assert (a * q) * b == q * (a * b);
    assert q * (p * i) == p * (q * i);
  }

  function Choose(n: nat, k: nat): nat {
    if k == 0 then 1 else if n == 0 then 0 else Choose(n - 1, k - 1) + Choose(n - 1, k)
  }

  lemma {:induction false} ChooseEnds(n: nat, k: nat)
    requires k >= n
    ensures Choose(n, k) == if k == n then 1 else 0
  {
    if n > 0 {
      ChooseEnds(n - 1, k - 1);
      ChooseEnds(n - 1, k);
    }
  }

  lemma {:induction false} Absorb(n: nat, k: nat)
    ensures (k + 1) * Choose(n + 1, k + 1) == (n + 1) * Choose(n, k)
  {
    if n == 0 {
      ChooseEnds(1, k + 1);
      ChooseEnds(0, k);
    } else {
      Absorb(n - 1, k);
      if k > 0 { Absorb(n - 1, k - 1); }
      var below := if k == 0 then 0 else Choose(n - 1, k - 1);
      AbsorbStep(n, k, Choose(n + 1, k + 1), Choose(n, k), Choose(n, k + 1), below, Choose(n - 1, k));
    }
  }

  lemma AbsorbStep(n: int, k: int, up: int, left: int, right: int, x: int, y: int)
    requires up == left + right && left == x + y && (k + 1) * right == n * y && k * left == n * x
    ensures (k + 1) * up == (n + 1) * left
  {
    assert (k + 1) * up == k * left + left + (k + 1) * right;
    assert n * x + n * y == n * (x + y);
  }

  /** The first terms of the binomial expansion of (1 + a) to the n. */
  function Terms(n: nat, a: int, j: nat): int {
    Choose(n, j) * Pow(a, j) + if j == 0 then 0 else Terms(n, a, j - 1)
  }

  lemma {:induction false} TermsShift(n: nat, a: int, j: nat)
    ensures (1 + a) * Terms(n, a, j) == Terms(n + 1, a, j) + Choose(n, j) * Pow(a, j + 1)
  {
    if j > 0 {
      TermsShift(n, a, j - 1);
      TermsStep(a, Choose(n, j - 1), Choose(n, j), Pow(a, j), Pow(a, j + 1), Terms(n, a, j - 1),
                Terms(n + 1, a, j - 1));
    }
  }

  lemma TermsStep(a: int, c: int, d: int, x: int, y: int, s: int, t: int)
    requires (1 + a) * s == t + c * x && y == a * x
    ensures (1 + a) * (d * x + s) == ((c + d) * x + t) + d * y
  {
    assert (1 + a) * (d * x + s) == d * x + a * (d * x) + (1 + a) * s;
    assert d * (a * x) == a * (d * x);
  }

  lemma {:induction false} Binomial(n: nat, a: int)
    ensures Pow(1 + a, n) == Terms(n, a, n)
  {
    if n > 0 {
      Binomial(n - 1, a);
      TermsShift(n - 1, a, n - 1);
      ChooseEnds(n - 1, n - 1);
      ChooseEnds(n, n);
      assert Terms(n, a, n) == Pow(a, n) + Terms(n, a, n - 1);
    }
  }

  lemma {:induction false} TermsVanish(p: int, a: int, j: nat)
    requires Prime(p) && j < p
    ensures Cong(Terms(p, a, j), 1, p)
  {
    hide Prime, Cong, Choose, Pow;
    if j == 0 {
      First(p, a);
      CongSame(1, p);
    } else {
      TermsVanish(p, a, j - 1);
      InnerChoose(p, j);
      CongSame(Pow(a, j), p);
      CongMul(Choose(p, j), 0, Pow(a, j), Pow(a, j), p);
      CongAdd(Choose(p, j) * Pow(a, j), 0, Terms(p, a, j - 1), 1, p);
    }
  }

  lemma First(p: nat, a: int)
    ensures Choose(p, 0) * Pow(a, 0) == 1
  {}

  lemma InnerChoose(p: int, k: int)
    requires Prime(p) && 0 < k < p
    ensures Cong(Choose(p, k), 0, p)
  {
    hide Choose;
    Absorb(p - 1, k - 1);
    DividesMake(p, k * Choose(p, k), Choose(p - 1, k - 1));
    Euclid(p, k, Choose(p, k));
  }

  /** Fermat: a to the p is a, modulo a prime p. */
  lemma {:induction false} Fermat(p: int, a: nat)
    requires Prime(p)
    ensures Cong(Pow(a, p), a, p)
  {
    hide Cong, Terms;
    CongSame(0, p);
    if a == 0 {
      assert Pow(0, p) == 0;
    } else {
      Fermat(p, a - 1);
      Binomial(p, a - 1);
      TermsVanish(p, a - 1, p - 1);
      LastTerm(p, a - 1);
      CongAdd(Pow(a - 1, p), a - 1, Terms(p, a - 1, p - 1), 1, p);
    }
  }

  lemma LastTerm(p: nat, a: int)
    requires p > 0
    ensures Terms(p, a, p) == Pow(a, p) + Terms(p, a, p - 1)
  {
    ChooseEnds(p, p);
  }

  /** A square has two roots at most. */
  lemma TwoRoots(p: int, r: int, y: int)
    requires Prime(p) && 0 <= r < p && 0 <= y < p && Cong(r * r, y * y, p)
    ensures r == y || r == p - y
  {
    hide Prime, Divides;
    if r > y {
      assert r * r - y * y == (r - y) * (r + y);
      Euclid(p, r - y, r + y);
      WholeSum(p, r + y);
    } else if r < y {
      CongSym(r * r, y * y, p);
      assert y * y - r * r == (y - r) * (y + r);
      Euclid(p, y - r, y + r);
      WholeSum(p, y + r);
    }
  }

  lemma NotPositive(p: nat, i: int)
    ensures i <= 0 ==> p * i <= 0
  {}

  lemma WholeSum(p: int, s: int)
    requires p > 0 && 0 < s < 2 * p && Divides(p, s)
    ensures s == p
  {
    hide Divides;
    var i := DividesPart(p, s);
    NotPositive(p, i);
    if i >= 2 { Multiple(p, i - 1); }
  }
}
