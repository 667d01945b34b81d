/** Numbers a + b s with s * s = D, as pairs: where Lucas sequences are powers, and why the
    sequence at (p + 1) / 2 gives square roots modulo a prime p. */
module QuadraticRing {
  import opened NumberTheory
  import opened Lucas

  datatype Pair = Pair(a: int, b: int)

  const ONE := Pair(1, 0)

  function Add(x: Pair, y: Pair): Pair {
    Pair(x.a + y.a, x.b + y.b)
  }

  function Scale(c: int, x: Pair): Pair {
    Pair(c * x.a, c * x.b)
  }

  function Mul(D: int, x: Pair, y: Pair): Pair {
    Pair(x.a * y.a + D * (x.b * y.b), x.a * y.b + x.b * y.a)
  }

  function Power(D: int, x: Pair, n: nat): Pair {
    if n == 0 then ONE else Mul(D, x, Power(D, x, n - 1))
  }

  predicate PairCong(x: Pair, y: Pair, m: int)
    requires m > 0
  {
    Cong(x.a, y.a, m) && Cong(x.b, y.b, m)
  }

  // ---------------------------------------------------------------- laws

  lemma MulAdd(D: int, x: Pair, y: Pair, z: Pair)
    ensures Mul(D, x, Add(y, z)) == Add(Mul(D, x, y), Mul(D, x, z))
  {
    assert x.b * (y.b + z.b) == x.b * y.b + x.b * z.b;
    assert D * (x.b * y.b + x.b * z.b) == D * (x.b * y.b) + D * (x.b * z.b);
    assert x.a * (y.a + z.a) == x.a * y.a + x.a * z.a;
    assert x.a * (y.b + z.b) == x.a * y.b + x.a * z.b;
    assert x.b * (y.a + z.a) == x.b * y.a + x.b * z.a;
  }

  lemma MulScale(D: int, c: int, x: Pair, y: Pair)
    ensures Mul(D, x, Scale(c, y)) == Scale(c, Mul(D, x, y))
  {
    Swap(x.a, c, y.a);
    Swap(x.a, c, y.b);
    Swap(x.b, c, y.a);
    Swap(x.b, c, y.b);
    Swap(D, c, x.b * y.b);
    Spread(c, x.a * y.a, D * (x.b * y.b));
    Spread(c, x.a * y.b, x.b * y.a);
  }

  lemma Swap(x: int, c: int, y: int)
    ensures x * (c * y) == c * (x * y)
  {}

  lemma Spread(c: int, x: int, y: int)
    ensures c * (x + y) == c * x + c * y
  {}

  lemma OnePlus(D: int, x: Pair, y: Pair)
    ensures Mul(D, Add(ONE, x), y) == Add(y, Mul(D, x, y))
  {
    assert (1 + x.a) * y.a == y.a + x.a * y.a;
    assert (1 + x.a) * y.b == y.b + x.a * y.b;
  }

  // ---------------------------------------------------------------- the binomial expansion

  function PairTerms(D: int, n: nat, x: Pair, j: nat): Pair {
    var term := Scale(Choose(n, j), Power(D, x, j));
    if j == 0 then term else Add(term, PairTerms(D, n, x, j - 1))
  }

  lemma {:induction false} PairShift(D: int, n: nat, x: Pair, j: nat)
    ensures Mul(D, Add(ONE, x), PairTerms(D, n, x, j))
         == Add(PairTerms(D, n + 1, x, j), Scale(Choose(n, j), Power(D, x, j + 1)))
  {
    hide Mul, Choose;
    OnePlus(D, x, PairTerms(D, n, x, j));
    MulScale(D, Choose(n, j), x, Power(D, x, j));
    if j == 0 {
      ChooseZero(n);
    } else {
      PairShift(D, n, x, j - 1);
      OnePlus(D, x, PairTerms(D, n, x, j - 1));
      MulAdd(D, x, Scale(Choose(n, j), Power(D, x, j)), PairTerms(D, n, x, j - 1));
      Pascal(n, j);
      ScaleSum(Choose(n, j - 1), Choose(n, j), Power(D, x, j));
    }
  }

  lemma ChooseZero(n: nat)
    ensures Choose(n, 0) == 1 && Choose(n + 1, 0) == 1
  {}

  lemma Pascal(n: nat, j: nat)
    requires j > 0
    ensures Choose(n + 1, j) == Choose(n, j - 1) + Choose(n, j)
  {}

  lemma ScaleSum(c: int, d: int, x: Pair)
    ensures Scale(c + d, x) == Add(Scale(c, x), Scale(d, x))
  {}

  lemma {:induction false} PairBinomial(D: int, n: nat, x: Pair)
    ensures Power(D, Add(ONE, x), n) == PairTerms(D, n, x, n)
  {
    hide Mul, Choose;
    ChooseEnds(n, n);
    if n > 0 {
      PairBinomial(D, n - 1, x);
      PairShift(D, n - 1, x, n - 1);
      ChooseEnds(n - 1, n - 1);
    } else {
      assert Scale(1, ONE) == ONE;
    }
  }

  lemma {:induction false} PairVanish(p: int, D: int, x: Pair, j: nat)
    requires Prime(p) && j < p
    ensures PairCong(PairTerms(D, p, x, j), ONE, p)
  {
    hide Mul, Choose, Cong;
    if j == 0 {
      ChooseZero(p);
      CongSame(1, p);
      CongSame(0, p);
    } else {
      PairVanish(p, D, x, j - 1);
      InnerChoose(p, j);
      var y, t := Power(D, x, j), PairTerms(D, p, x, j - 1);
      CongSame(y.a, p);
      CongSame(y.b, p);
      CongMul(Choose(p, j), 0, y.a, y.a, p);
      CongMul(Choose(p, j), 0, y.b, y.b, p);
      CongAdd(Choose(p, j) * y.a, 0, t.a, 1, p);
      CongAdd(Choose(p, j) * y.b, 0, t.b, 0, p);
    }
  }

  /** Modulo a prime p, the p-th power of 1 + x is 1 plus that of x. */
  lemma PairDream(p: int, D: int, x: Pair)
    requires Prime(p)
    ensures PairCong(Power(D, Add(ONE, x), p), Add(ONE, Power(D, x, p)), p)
  {
    hide Mul, Choose, Cong, Power;
    PairBinomial(D, p, x);
    PairVanish(p, D, x, p - 1);
    ChooseEnds(p, p);
    var y, t := Power(D, x, p), PairTerms(D, p, x, p - 1);
    CongSame(y.a, p);
    CongSame(y.b, p);
    CongAdd(t.a, 1, y.a, y.a, p);
    CongAdd(t.b, 0, y.b, y.b, p);
  }

  /** Odd powers of s. */
  lemma {:induction false} RootPower(D: int, e: nat)
    ensures Power(D, Pair(0, 1), 2 * e) == Pair(Pow(D, e), 0)
    ensures Power(D, Pair(0, 1), 2 * e + 1) == Pair(0, Pow(D, e))
  {
    if e > 0 { RootPower(D, e - 1); }
  }

  lemma {:induction false} ShiftedPower(p: int, D: int, c: nat)
    requires Prime(p) && p % 2 == 1
    ensures PairCong(Power(D, Pair(c, 1), p), Pair(c, Pow(D, (p - 1) / 2)), p)
  {
    hide Cong, Prime, Pow, Power;
    OddOver1(p);
    if c == 0 {
      RootPower(D, (p - 1) / 2);
      CongSame(0, p);
      CongSame(Pow(D, (p - 1) / 2), p);
    } else {
      ShiftedPower(p, D, c - 1);
      var x := Pair(c - 1, 1);
      PairDream(p, D, x);
      assert Add(ONE, x) == Pair(c, 1);
      var y := Power(D, x, p);
      CongSame(1, p);
      CongAdd(1, 1, y.a, c - 1, p);
      CongTrans(Power(D, Pair(c, 1), p).a, 1 + y.a, c, p);
      CongTrans(Power(D, Pair(c, 1), p).b, y.b, Pow(D, (p - 1) / 2), p);
    }
  }

  lemma OddOver1(p: int)
    requires Prime(p)
    ensures p > 1 && (p % 2 == 1 ==> 2 * ((p - 1) / 2) + 1 == p)
  {}

  // ---------------------------------------------------------------- Lucas sequences

  /** One step along both sequences, with D = P * P - 4 * Q. */
  lemma {:induction false} NextBoth(P: int, Q: int, n: nat)
    ensures 2 * V(P, Q, n + 1) == P * V(P, Q, n) + (P * P - 4 * Q) * U(P, Q, n)
    ensures 2 * U(P, Q, n + 1) == V(P, Q, n) + P * U(P, Q, n)
  {
    if n > 0 {
      NextBoth(P, Q, n - 1);
      NextStep(P, Q, V(P, Q, n - 1), U(P, Q, n - 1), V(P, Q, n), U(P, Q, n));
    }
  }

  lemma NextStep(P: int, Q: int, v: int, u: int, v1: int, u1: int)
    requires 2 * v1 == P * v + (P * P - 4 * Q) * u && 2 * u1 == v + P * u
    ensures 2 * (P * v1 - Q * v) == P * v1 + (P * P - 4 * Q) * u1
    ensures 2 * (P * u1 - Q * u) == v1 + P * u1
  {
    var D := P * P - 4 * Q;
    TimesD(P, Q, u);
    TimesD(P, Q, v);
    TimesSum(P, v1, P * v, D * u);
    TimesSum(D, u1, v, P * u);
    TimesSum(P, u1, v, P * u);
    Swap(P, D, u);
  }

  lemma TimesD(P: int, Q: int, x: int)
    ensures (P * P - 4 * Q) * x == P * (P * x) - 4 * (Q * x)
  {
    assert P * (P * x) == (P * P) * x;
  }

  lemma TimesSum(c: int, x: int, a: int, b: int)
    requires 2 * x == a + b
    ensures 2 * (c * x) == c * a + c * b
  {
    assert c * (2 * x) == c * a + c * b;
  }

  lemma {:induction false} LucasPower(P: int, Q: int, n: nat)
    ensures Scale(2, Power(P * P - 4 * Q, Pair(P, 1), n)) == Scale(Pow(2, n), Pair(V(P, Q, n), U(P, Q, n)))
  {
    hide U, V;
    if n == 0 {
      FirstTerms(P, Q);
    } else {
      LucasPower(P, Q, n - 1);
      NextBoth(P, Q, n - 1);
      var x := Power(P * P - 4 * Q, Pair(P, 1), n - 1);
      LucasStep(P, P * P - 4 * Q, Pow(2, n - 1), x.a, x.b,
                V(P, Q, n - 1), U(P, Q, n - 1), V(P, Q, n), U(P, Q, n));
    }
  }

  lemma FirstTerms(P: int, Q: int)
    ensures V(P, Q, 0) == 2 && U(P, Q, 0) == 0 && V(P, Q, 1) == P && U(P, Q, 1) == 1
  {}

  lemma LucasStep(P: int, D: int, c: int, a: int, b: int, v: int, u: int, v1: int, u1: int)
    requires 2 * a == c * v && 2 * b == c * u && 2 * v1 == P * v + D * u && 2 * u1 == v + P * u
    ensures 2 * (P * a + D * (1 * b)) == (2 * c) * v1
    ensures 2 * (P * b + 1 * a) == (2 * c) * u1
  {
    assert 2 * (P * a) == P * (c * v) && 2 * (D * b) == D * (c * u) && 2 * (P * b) == P * (c * u);
    Swap(P, c, v);
    Swap(D, c, u);
    Swap(P, c, u);
    Spread(c, P * v, D * u);
    Spread(c, v, P * u);
    assert (2 * c) * v1 == c * (2 * v1) && (2 * c) * u1 == c * (2 * u1);
  }

  /** Halving, modulo an odd number. */
  lemma Halve(p: int, x: int)
    requires p > 0 && p % 2 == 1 && Divides(p, 2 * x)
    ensures Divides(p, x)
  {
    hide Divides;
    var i := DividesPart(p, 2 * x);
    EvenFactor(p, i, x);
    DividesMake(p, x, i / 2);
  }

  lemma EvenFactor(p: int, i: int, x: int)
    requires p % 2 == 1 && 2 * x == p * i
    ensures i % 2 == 0 && x == p * (i / 2)
  {
    var q := p / 2;
    assert p == 2 * q + 1;
    assert p * i == 2 * (q * i) + i;
    var h := i / 2;
    assert i == 2 * h;
    assert p * (2 * h) == 2 * (p * h);
  }

  lemma HalveCong(p: int, x: int, y: int)
    requires p > 0 && p % 2 == 1 && Cong(2 * x, 2 * y, p)
    ensures Cong(x, y, p)
  {
    hide Divides;
    assert 2 * x - 2 * y == 2 * (x - y);
    Halve(p, x - y);
  }

  /** Where D is no square modulo p, the index p + 1 brings V back to 2 Q. */
  lemma ConjugateProduct(p: int, P: nat, Q: int)
    requires Prime(p) && p % 2 == 1 && Cong(Pow(P * P - 4 * Q, (p - 1) / 2), -1, p)
    ensures Cong(V(P, Q, p + 1), 2 * Q, p)
  {
    hide Cong, Prime, Pow, V, U, Power;
    OddOver1(p);
    var D := P * P - 4 * Q;
    ShiftedPower(p, D, P);
    var x, y := Power(D, Pair(P, 1), p), Power(D, Pair(P, 1), p + 1);
    PowerNext(D, P, p);
    CongTrans(x.b, Pow(D, (p - 1) / 2), -1, p);
    CongSame(P, p);
    CongSame(D, p);
    CongMul(P, P, x.a, P, p);
    CongMul(D, D, x.b, -1, p);
    CongAdd(P * x.a, P * P, D * x.b, D * -1, p);
    assert y.a == P * x.a + D * x.b && P * P + D * -1 == 4 * Q;
    LucasPower(P, Q, p + 1);
    var v := V(P, Q, p + 1);
    assert 2 * y.a == Pow(2, p + 1) * v;
    Fermat(p, 2);
    PowAdd(2, p, 1);
    FinishConjugate(p, Pow(2, p), Pow(2, p + 1), v, y.a, Q);
  }

  lemma PowerNext(D: int, P: int, n: nat)
    ensures Power(D, Pair(P, 1), n + 1).a == P * Power(D, Pair(P, 1), n).a + D * Power(D, Pair(P, 1), n).b
    ensures Pow(2, 1) == 2
  {}

  lemma FinishConjugate(p: int, t: int, t2: int, v: int, a: int, Q: int)
    requires p > 0 && p % 2 == 1 && Cong(t, 2, p) && t2 == t * 2 && 2 * a == t2 * v && Cong(a, 4 * Q, p)
    ensures Cong(v, 2 * Q, p)
  {
    hide Cong;
    CongSame(v, p);
    CongMul(t, 2, v, v, p);
    assert t2 * v == 2 * (t * v);
    assert a == t * v;
    CongSym(t * v, 2 * v, p);
    CongTrans(2 * v, t * v, 2 * (2 * Q), p);
    HalveCong(p, v, 2 * Q);
  }

  /** When Q passes Euler's test and D fails it, half of V at (p + 1) / 2 squares to Q. */
  lemma HalfwaySquare(p: int, P: nat, Q: int)
    requires Prime(p) && p % 2 == 1
    requires Cong(Pow(Q, (p - 1) / 2), 1, p) && Cong(Pow(P * P - 4 * Q, (p - 1) / 2), -1, p)
    ensures Cong(V(P, Q, (p + 1) / 2) * V(P, Q, (p + 1) / 2), 4 * Q, p)
  {
    hide Cong, Prime, Pow, V, U;
    OddOver1(p);
    var k := (p + 1) / 2;
    ConjugateProduct(p, P, Q);
    Double(P, Q, k);
    var e := Pow(Q, (p - 1) / 2);
    PowerOnce(Q, (p - 1) / 2);
    CongSame(2 * Q, p);
    CongMul(2 * Q, 2 * Q, e, 1, p);
    CongAdd(V(P, Q, p + 1), 2 * Q, 2 * Q * e, 2 * Q * 1, p);
    assert V(P, Q, k) * V(P, Q, k) == V(P, Q, p + 1) + 2 * Q * e;
  }

  lemma PowerOnce(Q: int, e: nat)
    ensures 2 * Pow(Q, e + 1) == 2 * Q * Pow(Q, e)
  {}
}
