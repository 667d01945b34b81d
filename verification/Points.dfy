/** crypto/encode.go: square roots modulo the curve's prime, and the byte forms of public keys. */
module Points {
  import opened Words
  import opened NumberTheory
  import opened QuadraticRing
  import PowerSums
  import Lucas
  import Rlp

  // ---------------------------------------------------------------- square roots

  ghost predicate IsSquare(a: int, p: int)
    requires p > 0
  {
    exists y :: 0 <= y < p && Cong(y * y, a, p)
  }

  /** big.Int.Exp with a modulus. */
  function Exp(a: int, e: nat, m: int): (r: int)
    requires m > 0
    ensures 0 <= r < m
  {
    Pow(a, e) % m
  }

  /** For p = 3 modulo 4: the power (p + 1) / 4, if its square is the number asked for. */
  function PowerRoot(a: int, p: int): (root: Option<int>)
    requires p > 0
    ensures root.Some? ==> 0 <= root.value < p
  {
    var r := Exp(a, p / 4 + 1, p);
    if Exp(r, 2, p) == a then Some(r) else None
  }

  /** It finds a root exactly where there is one. */
  lemma PowerRootExact(a: int, p: int)
    requires Prime(p) && p % 4 == 3 && 0 <= a < p
    ensures PowerRoot(a, p).Some? <==> IsSquare(a, p)
    ensures PowerRoot(a, p).Some? ==> var r := PowerRoot(a, p).value; Cong(r * r, a, p)
  {
    hide Cong, Prime, Pow;
    PrimeBeyond1(p);
    var r := Exp(a, p / 4 + 1, p);
    PowTwo(r);
    CongSame(r * r, p);
    CongSym(Exp(r, 2, p), r * r, p);
    if IsSquare(a, p) {
      var y :| 0 <= y < p && Cong(y * y, a, p);
      RootOfSquare(p, y, a);
      CongReduced(Exp(r, 2, p), a, p);
    }
  }

  lemma PowTwo(r: int)
    ensures Pow(r, 2) == r * r && Pow(r, 1) == r
  {
    assert Pow(r, 1) == r;
  }

  /** The square of that power of a square is the square. */
  lemma RootOfSquare(p: int, y: nat, a: int)
    requires Prime(p) && p % 4 == 3 && Cong(y * y, a, p)
    ensures var r := Exp(a, p / 4 + 1, p); Cong(Exp(r, 2, p), a, p)
  {
    hide Cong, Prime, Pow;
    PrimeBeyond1(p);
    var e := p / 4 + 1;
    var x := Pow(a, e);
    var r := x % p;
    CongSame(x, p);
    CongMul(r, x, r, x, p);
    PowTwo(r);
    CongSame(r * r, p);
    CongTrans((r * r) % p, r * r, x * x, p);
    CongSym(y * y, a, p);
    PowCong(a, y * y, e, p);
    PowSquare(y, e);
    CongMul(x, Pow(y, 2 * e), x, Pow(y, 2 * e), p);
    PowAdd(y, 2 * e, 2 * e);
    PowAdd(y, p, 1);
    PowTwo(y);
    Fermat(p, y);
    CongSame(y, p);
    CongMul(Pow(y, p), y, y, y, p);
    CongTrans(x * x, Pow(y, p) * y, y * y, p);
    CongTrans(x * x, y * y, a, p);
    CongTrans((r * r) % p, x * x, a, p);
  }

  /** A square other than zero passes Euler's test. */
  lemma EulerTest(p: int, y: nat, a: int)
    requires Prime(p) && p % 2 == 1 && 0 < y < p && Cong(y * y, a, p)
    ensures Exp(a, (p - 1) / 2, p) == 1
  {
    hide Cong, Prime, Pow;
    PrimeBeyond1(p);
    var e := (p - 1) / 2;
    PowSquare(y, e);
    CongSym(y * y, a, p);
    PowCong(a, y * y, e, p);
    Fermat(p, y);
    PowAdd(y, 1, p - 1);
    PowTwo(y);
    Cancel(p, y, Pow(y, p - 1));
    CongTrans(Pow(a, e), Pow(y, p - 1), 1, p);
    CongSame(Pow(a, e), p);
    CongTrans(Exp(a, e, p), Pow(a, e), 1, p);
    CongReduced(Exp(a, e, p), 1, p);
  }

  /** Zero, a square itself, does not. */
  lemma ZeroFails(p: int)
    requires p > 2 && p % 2 == 1
    ensures IsSquare(0, p) && Exp(0, (p - 1) / 2, p) == 0
  {
    CongSame(0, p);
    assert Cong(0 * 0, 0, p);
  }

  lemma Cancel(p: int, y: int, x: int)
    requires Prime(p) && 0 < y < p && Cong(y * x, y, p)
    ensures Cong(x, 1, p)
  {
    hide Prime, Divides;
    PrimeBeyond1(p);
    assert y * x - y == y * (x - 1);
    Euclid(p, y, x - 1);
  }

  datatype Rooted = Root(y: int) | NoRoot | Exhausted

  /** Whether a random number is used: below p, with P * P - 4 * Q failing Euler's test. */
  predicate Accepted(p: int, a: int, P: nat)
    requires p > 1
  {
    P < p && Exp(P * P - (4 * a) % p, (p - 1) / 2, p) == p - 1
  }

  /** The part of the loop after a number P is accepted: a root, or the first Lucas value to stop on. */
  method LucasRoot(a: int, p: int, P: nat) returns (r: Option<int>, u: int)
    requires p > 2 && p % 4 == 1 && 0 <= a < p
    ensures r.Some? ==> 0 <= r.value < p && Cong(r.value * r.value, a, p)
    ensures Prime(p) && Accepted(p, a, P) && Exp(a, (p - 1) / 2, p) == 1 ==> r.Some?
  {
    hide Cong, Prime, Pow, Exp, Accepted, FourTimes;
    var v;
    u, v := LucasValue(a, p, P);
    r := HalfOf(a, p, v);
  }

  /** v squares to 4 a. */
  predicate FourTimes(v: int, a: int, p: int)
    requires p > 0
  {
    (v * v) % p == (4 * a) % p
  }

  method LucasValue(a: int, p: int, P: nat) returns (u: int, v: int)
    requires p > 2 && p % 4 == 1
    ensures 0 <= v < p
    ensures Prime(p) && Accepted(p, a, P) && Exp(a, (p - 1) / 2, p) == 1 ==> FourTimes(v, a, p)
  {
    hide Cong, Prime, Pow, Exp, Lucas.U, Lucas.V, Accepted, FourTimes;
    var k := (p - 1) / 4 * 2 + 1;
    u, v := Lucas.FastLucasSequence(p, P, a, k);
    if Prime(p) && Accepted(p, a, P) && Exp(a, (p - 1) / 2, p) == 1 { VSquare(p, P, a, v); }
  }

  /** The check of a Lucas value, and its half modulo p. */
  method HalfOf(a: int, p: int, v: int) returns (r: Option<int>)
    requires p > 2 && p % 2 == 1 && 0 <= v < p
    ensures r.Some? <==> FourTimes(v, a, p)
    ensures r.Some? ==> 0 <= r.value < p && Cong(r.value * r.value, a, p)
  {
    hide Cong;
    var fourQ := (4 * a) % p;
    r := None;
    if (v * v) % p == fourQ {
      HalfRoot(p, a, v);
      var w := v;
      if w % 2 == 1 { w := w + p; }
      r := Some(w / 2);
    }
  }

  /** The loop for p = 1 modulo 4. The random numbers are drawn from primes; Exhausted when the loop
      still wants another. */
  method DrawRoot(a: int, p: int, primes: seq<nat>) returns (r: Rooted)
    requires p > 2 && p % 4 == 1 && 0 <= a < p
    ensures r.Root? ==> 0 <= r.y < p && Cong(r.y * r.y, a, p)
    ensures Prime(p) && Exp(a, (p - 1) / 2, p) == 1 ==>
      !r.NoRoot? && (r.Exhausted? <==> NoneAccepted(p, a, primes))
  {
    hide Cong, Prime, Pow, Accepted, Exp;
    ghost var sure := Prime(p) && Exp(a, (p - 1) / 2, p) == 1;
    var i := 0;
    while true
      invariant 0 <= i <= |primes| && (sure ==> NoneAccepted(p, a, primes[..i]))
      decreases |primes| - i
    {
      while i < |primes| && !Accepted(p, a, primes[i])
        invariant 0 <= i <= |primes| && (sure ==> NoneAccepted(p, a, primes[..i]))
        decreases |primes| - i
      {
        i := i + 1;
      }
      if i == |primes| {
        assert primes[..i] == primes;
        return Exhausted;
      }
      var root, u := LucasRoot(a, p, primes[i]);
      if root.Some? { return Root(root.value); }
      if u == 1 || u == p - 1 { return NoRoot; }
      i := i + 1;
    }
  }

  predicate NoneAccepted(p: int, a: int, primes: seq<nat>)
    requires p > 1
  {
    forall i :: 0 <= i < |primes| ==> !Accepted(p, a, primes[i])
  }

  /** What curveSqrt answers: a root of the input if anything, for p = 3 modulo 4 the power, and for a
      prime p = 1 modulo 4 a root of every square but zero, once a drawn number is accepted. */
  ghost predicate Answers(a: int, p: int, primes: seq<nat>, r: Rooted)
    requires p > 2
  {
    && (r.Root? ==> 0 <= r.y < p && Cong(r.y * r.y, a, p))
    && (p % 4 == 3 ==> r == if PowerRoot(a, p).Some? then Root(PowerRoot(a, p).value) else NoRoot)
    && (p % 4 == 1 && Prime(p) ==>
          && (r.NoRoot? <==> a == 0 || !IsSquare(a, p))
          && (r.Exhausted? <==> !r.NoRoot? && NoneAccepted(p, a, primes)))
  }

  method CurveSqrt(a: int, p: int, primes: seq<nat>) returns (r: Rooted)
    requires p > 2 && p % 2 == 1 && 0 <= a < p
    ensures Answers(a, p, primes, r)
  {
    hide Cong, Prime, Pow, NoneAccepted, Exp, IsSquare, PowerRoot;
    SecondBit(p);
    if Prime(p) { TestExact(p, a); }
    if p / 2 % 2 == 1 {
      PowerRootIs(a, p);
      var root := Exp(a, p / 4 + 1, p);
      var square := Exp(root, 2, p);
      if square == a {
        ExpSquare(root, p);
        return Root(root);
      }
      return NoRoot;
    }
    var legend := Exp(a, (p - 1) / 2, p);
    if legend != 1 { return NoRoot; }
    r := DrawRoot(a, p, primes);
  }

  /** The bit that tells 1 from 3 modulo 4. */
  lemma SecondBit(p: int)
    requires p % 2 == 1
    ensures if p / 2 % 2 == 1 then p % 4 == 3 else p % 4 == 1
  {}

  lemma PowerRootIs(a: int, p: int)
    requires p > 0
    ensures var r := Exp(a, p / 4 + 1, p);
      PowerRoot(a, p) == if Exp(r, 2, p) == a then Some(r) else None
  {}

  /** Some number below p is accepted, for every input but zero. */
  lemma SomeAccepted(p: int, a: int)
    requires Prime(p) && p % 2 == 1 && 0 < a < p
    ensures exists P: nat :: Accepted(p, a, P)
  {
    hide Cong, Prime, Pow;
    PrimeBeyond1(p);
    var e, f := (p - 1) / 2, (4 * a) % p;
    FourNotZero(p, a);
    PowerSums.SomeFails(p, -f, e);
    var x: nat :| x < p && Pow(-f + x * x, e) % p == p - 1;
    assert x * x - f == -f + x * x;
    assert Accepted(p, a, x);
  }

  lemma FourNotZero(p: int, a: int)
    requires p > 1 && p % 2 == 1 && 0 < a < p
    ensures var f := (4 * a) % p; 0 < f < p && (-f) % p != 0
  {
    var f := (4 * a) % p;
    if f == 0 {
      assert 4 * a == 2 * (2 * a);
      Halve(p, 2 * a);
      Halve(p, a);
      CongReduced(a, 0, p);
    }
    if (-f) % p == 0 {
      CongSym(-f, 0, p);
      CongReduced(f, 0, p);
    }
  }

  /** Euler's test tells the squares other than zero, and fails zero. */
  lemma TestExact(p: int, a: int)
    requires Prime(p) && p > 2 && p % 2 == 1 && 0 <= a < p
    ensures Exp(a, (p - 1) / 2, p) == 1 <==> a != 0 && IsSquare(a, p)
  {
    hide Cong, Prime, Pow, Exp, Accepted;
    if a == 0 {
      ZeroFails(p);
    } else if Exp(a, (p - 1) / 2, p) == 1 {
      SomeAccepted(p, a);
      var P: nat :| Accepted(p, a, P);
      TestRoot(p, P, a);
    } else if IsSquare(a, p) {
      var y :| 0 <= y < p && Cong(y * y, a, p);
      NonzeroRoot(p, y, a);
      EulerTest(p, y, a);
    }
  }

  lemma NonzeroRoot(p: int, y: nat, a: int)
    requires 0 < a < p && Cong(y * y, a, p)
    ensures y != 0
  {
    if y == 0 {
      CongSym(y * y, a, p);
      CongReduced(a, 0, p);
    }
  }

  lemma TestRoot(p: int, P: nat, a: int)
    requires Prime(p) && p > 2 && p % 2 == 1 && Accepted(p, a, P) && Exp(a, (p - 1) / 2, p) == 1
    ensures IsSquare(a, p)
  {
    hide Cong, Prime, Pow, Exp, Lucas.V, Accepted, FourTimes;
    AcceptedSquare(p, P, a);
    HalfRoot(p, a, Lucas.V(P, a, (p + 1) / 2) % p);
  }

  /** Modulo a prime an accepted number leads to a Lucas value that squares to 4 a. */
  lemma AcceptedSquare(p: int, P: nat, a: int)
    requires Prime(p) && p > 2 && p % 2 == 1 && Accepted(p, a, P) && Exp(a, (p - 1) / 2, p) == 1
    ensures FourTimes(Lucas.V(P, a, (p + 1) / 2) % p, a, p)
  {
    hide Cong, Prime, Pow, Exp, Lucas.V, Accepted, FourTimes;
    var e := (p - 1) / 2;
    ExpCong(a, e, p);
    CongSym(1, Pow(a, e), p);
    FailsTest(p, P, a);
    HalfwaySquare(p, P, a);
    FourMake(p, Lucas.V(P, a, (p + 1) / 2), a);
  }

  lemma FourMake(p: int, w: int, a: int)
    requires p > 0 && Cong(w * w, 4 * a, p)
    ensures FourTimes(w % p, a, p) && 0 <= w % p < p
  {
    hide Cong;
    ReducedSquare(p, w, w % p, 4 * a);
  }

  lemma ExpSquare(r: int, p: int)
    requires p > 0
    ensures Cong(r * r, Exp(r, 2, p), p)
  {
    hide Cong;
    PowTwo(r);
    CongSame(r * r, p);
  }

  lemma VSquare(p: int, P: nat, a: int, v: int)
    requires Prime(p) && p % 4 == 1 && Accepted(p, a, P) && Exp(a, (p - 1) / 2, p) == 1
    requires v == Lucas.V(P, a, (p - 1) / 4 * 2 + 1) % p
    ensures FourTimes(v, a, p)
  {
    hide Cong, Prime, Pow, Exp, Lucas.V, Accepted, FourTimes;
    PrimeBeyond1(p);
    MiddleIndex(p);
    AcceptedSquare(p, P, a);
  }

  lemma MiddleIndex(p: int)
    requires p % 4 == 1
    ensures (p - 1) / 4 * 2 + 1 == (p + 1) / 2
  {}

  lemma ExpCong(a: int, e: nat, p: int)
    requires p > 0
    ensures Cong(Exp(a, e, p), Pow(a, e), p) && Cong(Pow(a, e), Exp(a, e, p), p)
  {
    CongSame(Pow(a, e), p);
  }

  lemma FailsTest(p: int, P: nat, a: int)
    requires p > 1 && p % 2 == 1 && Accepted(p, a, P)
    ensures Cong(Pow(P * P - 4 * a, (p - 1) / 2), -1, p)
  {
    hide Cong, Pow, Exp;
    var e := (p - 1) / 2;
    var D, d := P * P - 4 * a, P * P - (4 * a) % p;
    CongSame(P * P, p);
    CongSame(4 * a, p);
    CongAdd(P * P, P * P, 4 * a, (4 * a) % p, p);
    PowCong(D, d, e, p);
    ExpCong(d, e, p);
    CongTrans(Pow(D, e), Pow(d, e), p - 1, p);
    MinusOne(p);
    CongTrans(Pow(D, e), p - 1, -1, p);
  }

  lemma ReducedSquare(p: int, w: int, v: int, b: int)
    requires p > 0 && v == w % p && Cong(w * w, b, p)
    ensures (v * v) % p == b % p
  {
    hide Cong;
    CongSame(w, p);
    CongMul(v, w, v, w, p);
    CongTrans(v * v, w * w, b, p);
    CongMod(v * v, b, p);
  }

  lemma HalfRoot(p: int, a: int, v: int)
    requires p > 2 && p % 2 == 1 && 0 <= v < p && FourTimes(v, a, p)
    ensures var r := (if v % 2 == 1 then v + p else v) / 2; 0 <= r < p && Cong(r * r, a, p)
  {
    hide Cong, FourTimes;
    var w := if v % 2 == 1 then v + p else v;
    var r := w / 2;
    EvenHalf(p, v);
    ShiftedSquare(p, v, w, a);
    QuarterCong(p, r, w, a);
  }

  lemma EvenHalf(p: int, v: int)
    requires p % 2 == 1 && 0 <= v < p
    ensures var w := if v % 2 == 1 then v + p else v; w == 2 * (w / 2) && 0 <= w / 2 < p
  {}

  lemma ShiftedSquare(p: int, v: int, w: int, a: int)
    requires p > 0 && (w == v || w == v + p) && FourTimes(v, a, p)
    ensures Cong(w * w, 4 * a, p)
  {
    hide Cong;
    CongMod(v * v, 4 * a, p);
    PlusModulus(p, v);
    CongSame(v, p);
    CongMul(w, v, w, v, p);
    CongTrans(w * w, v * v, 4 * a, p);
  }

  lemma QuarterCong(p: int, r: int, w: int, a: int)
    requires p > 0 && p % 2 == 1 && w == 2 * r && Cong(w * w, 4 * a, p)
    ensures Cong(r * r, a, p)
  {
    hide Cong;
    assert w * w == 2 * (2 * (r * r));
    HalveCong(p, 2 * (r * r), 2 * a);
    HalveCong(p, r * r, a);
  }

  lemma PlusModulus(p: int, v: int)
    requires p > 0
    ensures Cong(v + p, v, p)
  {
    DividesMake(p, p, 1);
  }

  // ---------------------------------------------------------------- points

  datatype Curve = Curve(p: nat, b: int)

  /** Infinity is the key with nil coordinates. */
  datatype PubKey = PubKey(x: nat, y: nat) | Infinity

  /** The curve is over an odd modulus of 32 bytes. */
  predicate Proper(c: Curve) {
    c.p > 2 && c.p % 2 == 1 && |Rlp.BigEndian(c.p)| == XORY_LEN
  }

  /** x * x * x - 3 * x + b, reduced at every step. */
  function RightSide(c: Curve, x: nat): (r: int)
    requires c.p > 0
    ensures 0 <= r < c.p
  {
    ((Exp(x, 2, c.p) - 3) % c.p * x % c.p + c.b) % c.p
  }

  predicate OnCurve(c: Curve, x: nat, y: nat)
    requires c.p > 0
  {
    Cong(y * y, x * x * x - 3 * x + c.b, c.p)
  }

  lemma RightSideCong(c: Curve, x: nat)
    requires c.p > 0
    ensures Cong(RightSide(c, x), x * x * x - 3 * x + c.b, c.p)
  {
    hide Cong, Pow;
    var p := c.p;
    PowTwo(x);
    var s0 := Exp(x, 2, p);
    CongSame(x * x, p);
    CongSame(3, p);
    CongAdd(s0, x * x, 3, 3, p);
    var s1 := (s0 - 3) % p;
    CongSame(s0 - 3, p);
    CongTrans(s1, s0 - 3, x * x - 3, p);
    CongSame(x, p);
    CongMul(s1, x * x - 3, x, x, p);
    var s2 := s1 * x % p;
    CongSame(s1 * x, p);
    CongTrans(s2, s1 * x, (x * x - 3) * x, p);
    CongSame(c.b, p);
    CongAdd(s2, (x * x - 3) * x, c.b, c.b, p);
    CongSame(s2 + c.b, p);
    CongTrans(RightSide(c, x), s2 + c.b, (x * x - 3) * x + c.b, p);
    assert (x * x - 3) * x == x * x * x - 3 * x;
  }

  const FLAG_LEN: nat := 1
  const XORY_LEN: nat := 32
  const COMPRESSED_LEN: nat := 33
  const UNCOMPRESSED_LEN: nat := 65

  /** The y of the wanted parity; root is what curveSqrt answered. */
  function DeCompress(c: Curve, yTilde: int, x: nat, root: Option<int>): Option<PubKey>
    requires root.Some? ==> 0 <= root.value < c.p
  {
    if root == None then None
    else
      var even := root.value % 2 == 0;
      Some(PubKey(x, if (even && yTilde != 0) || (!even && yTilde != 1) then c.p - root.value else root.value))
  }

  datatype Decoded = Key(key: PubKey) | Malformed | SliceOutOfRange

  /** The number whose root a decoding asks for. */
  function Wanted(c: Curve, data: Bytes): (r: int)
    requires c.p > 0 && |data| >= COMPRESSED_LEN
    ensures 0 <= r < c.p
  {
    RightSide(c, Rlp.FromBigEndian(data[FLAG_LEN..FLAG_LEN + XORY_LEN]))
  }

  function DecodeWith(c: Curve, data: Bytes, root: Option<int>): Decoded
    requires root.Some? ==> 0 <= root.value < c.p
  {
    if |data| == 0 then Malformed
    else if data[0] == 0 then Key(Infinity)
    else if data[0] in {2, 3} then
      if |data| != |Rlp.BigEndian(c.p)| + 1 then Malformed
      else if |data| < COMPRESSED_LEN then SliceOutOfRange
      else
        var key := DeCompress(c, data[0] % 2, Rlp.FromBigEndian(data[FLAG_LEN..FLAG_LEN + XORY_LEN]), root);
        if key == None then Malformed else Key(key.value)
    else if data[0] in {4, 6, 7} then
      if |data| < UNCOMPRESSED_LEN then SliceOutOfRange
      else Key(PubKey(Rlp.FromBigEndian(data[FLAG_LEN..FLAG_LEN + XORY_LEN]),
                      Rlp.FromBigEndian(data[FLAG_LEN + XORY_LEN..UNCOMPRESSED_LEN])))
    else Malformed
  }

  /** What the first byte and the length decide, whatever the root: infinity after a zero, both
      coordinates after 4, 6 or 7, and an error for nothing, another first byte, or a compressed form
      of another length than the curve's; only lengths below what is sliced panic. */
  lemma DecodeExact(c: Curve, data: Bytes, root: Option<int>)
    requires Proper(c) && (root.Some? ==> 0 <= root.value < c.p)
    ensures var r := DecodeWith(c, data, root);
      && (r == Key(Infinity) <==> |data| > 0 && data[0] == 0)
      && (r == SliceOutOfRange <==> |data| > 0 && data[0] in {4, 6, 7} && |data| < 65)
      && (r == Malformed <==>
            || |data| == 0 || data[0] !in {0, 2, 3, 4, 6, 7}
            || (data[0] in {2, 3} && (|data| != 33 || root == None)))
    ensures |data| >= 65 && data[0] in {4, 6, 7} ==>
      DecodeWith(c, data, root) == Key(PubKey(Rlp.FromBigEndian(data[1..33]), Rlp.FromBigEndian(data[33..65])))
    ensures |data| == 33 && data[0] in {2, 3} && root.Some? ==>
      var r := DecodeWith(c, data, root);
      && r.Key? && r.key.PubKey? && r.key.x == Rlp.FromBigEndian(data[1..33])
      && r.key.y in {root.value, c.p - root.value} && r.key.y % 2 == data[0] % 2
  {
    hide Rlp.BigEndian, Rlp.FromBigEndian;
    if root.Some? { assert (c.p - root.value) % 2 == 1 - root.value % 2; }
  }

  function Zeros(n: nat): (r: Bytes)
    ensures |r| == n && forall i :: 0 <= i < n ==> r[i] == 0
  {
    seq(n, _ => 0)
  }

  /** None where a copy starts before the buffer, which panics. */
  function EncodePoint(key: PubKey, compressed: bool): Option<Bytes> {
    if key == Infinity then Some([0])
    else
      var xs, ys := Rlp.BigEndian(key.x), Rlp.BigEndian(key.y);
      if |xs| > COMPRESSED_LEN || (!compressed && |ys| > UNCOMPRESSED_LEN) then None
      else
        var buf := if compressed then Zeros(COMPRESSED_LEN) else Zeros(UNCOMPRESSED_LEN - |ys|) + ys;
        var both := buf[..COMPRESSED_LEN - |xs|] + xs + buf[COMPRESSED_LEN..];
        Some(both[0 := if !compressed then 4 else if key.y % 2 == 0 then 2 else 3])
  }

  // ---------------------------------------------------------------- fixed width

  function Padded(n: nat, width: nat): Bytes
    requires |Rlp.BigEndian(n)| <= width
  {
    Zeros(width - |Rlp.BigEndian(n)|) + Rlp.BigEndian(n)
  }

  lemma {:induction false} LeadingZeros(k: nat, b: Bytes)
    ensures Rlp.FromBigEndian(Zeros(k) + b) == Rlp.FromBigEndian(b)
    decreases k + |b|
  {
    if |b| > 0 {
      LeadingZeros(k, b[..|b| - 1]);
      assert (Zeros(k) + b)[..k + |b| - 1] == Zeros(k) + b[..|b| - 1];
    } else if k > 0 {
      LeadingZeros(k - 1, b);
      assert (Zeros(k) + b)[..k - 1] == Zeros(k - 1) + b;
    }
  }

  lemma PaddedValue(n: nat, width: nat)
    requires |Rlp.BigEndian(n)| <= width
    ensures Rlp.FromBigEndian(Padded(n, width)) == n && |Padded(n, width)| == width
  {
    LeadingZeros(width - |Rlp.BigEndian(n)|, Rlp.BigEndian(n));
    Rlp.BigEndianRoundTrip(n);
  }

  lemma {:induction false} ValuePadded(b: Bytes)
    ensures |Rlp.BigEndian(Rlp.FromBigEndian(b))| <= |b|
    ensures Padded(Rlp.FromBigEndian(b), |b|) == b
    decreases |b|
  {
    hide Rlp.BigEndian, Rlp.FromBigEndian;
    if |b| > 0 && b[0] == 0 {
      ValuePadded(b[1..]);
      assert Zeros(1) + b[1..] == b;
      LeadingZeros(1, b[1..]);
      var k: nat := |b| - |Rlp.BigEndian(Rlp.FromBigEndian(b))|;
      assert Zeros(k) == [0] + Zeros(k - 1);
    } else {
      Rlp.FromBigEndianRoundTrip(b);
      assert Zeros(0) + b == b;
    }
  }

  // ---------------------------------------------------------------- round trips

  lemma EncodeCompressed(key: PubKey)
    requires key.PubKey? && |Rlp.BigEndian(key.x)| <= XORY_LEN
    ensures EncodePoint(key, true) == Some([if key.y % 2 == 0 then 2 else 3] + Padded(key.x, XORY_LEN))
  {
    hide Rlp.BigEndian;
    var xs := Rlp.BigEndian(key.x);
    var buf := Zeros(COMPRESSED_LEN);
    assert buf[..COMPRESSED_LEN - |xs|] == [0] + Zeros(XORY_LEN - |xs|);
    assert buf[COMPRESSED_LEN..] == [];
    assert buf[..COMPRESSED_LEN - |xs|] + xs + buf[COMPRESSED_LEN..] == [0] + Padded(key.x, XORY_LEN);
    var flag := if key.y % 2 == 0 then 2 else 3;
    assert ([0] + Padded(key.x, XORY_LEN))[0 := flag] == [flag] + Padded(key.x, XORY_LEN);
  }

  lemma EncodeUncompressed(key: PubKey)
    requires key.PubKey? && |Rlp.BigEndian(key.x)| <= XORY_LEN && |Rlp.BigEndian(key.y)| <= XORY_LEN
    ensures EncodePoint(key, false) == Some([4] + Padded(key.x, XORY_LEN) + Padded(key.y, XORY_LEN))
  {
    hide Rlp.BigEndian;
    var xs, ys := Rlp.BigEndian(key.x), Rlp.BigEndian(key.y);
    var buf := Zeros(UNCOMPRESSED_LEN - |ys|) + ys;
    assert buf[..COMPRESSED_LEN - |xs|] == [0] + Zeros(XORY_LEN - |xs|);
    assert buf[COMPRESSED_LEN..] == Padded(key.y, XORY_LEN);
    assert buf[..COMPRESSED_LEN - |xs|] + xs + buf[COMPRESSED_LEN..]
        == [0] + Padded(key.x, XORY_LEN) + Padded(key.y, XORY_LEN);
    assert ([0] + Padded(key.x, XORY_LEN) + Padded(key.y, XORY_LEN))[0 := 4]
        == [4] + Padded(key.x, XORY_LEN) + Padded(key.y, XORY_LEN);
  }

  ghost predicate RootFor(c: Curve, a: int, root: Option<int>)
    requires c.p > 0
  {
    root.Some? ==> 0 <= root.value < c.p && Cong(root.value * root.value, a, c.p)
  }

  /** A decompressed point is on the curve and has the parity asked for. */
  lemma DeCompressSound(c: Curve, yTilde: int, x: nat, root: Option<int>)
    requires Proper(c) && yTilde in {0, 1} && root.Some? && RootFor(c, RightSide(c, x), root)
    ensures var key := DeCompress(c, yTilde, x, root).value;
      key.PubKey? && key.x == x && key.y <= c.p && key.y % 2 == yTilde && OnCurve(c, x, key.y)
  {
    hide Cong, RightSide, Rlp.BigEndian, OnCurve;
    var r, p := root.value, c.p;
    BothOnCurve(c, x, r);
    assert (p - r) % 2 == 1 - r % 2;
  }

  lemma BothOnCurve(c: Curve, x: nat, r: nat)
    requires c.p > 0 && r < c.p && Cong(r * r, RightSide(c, x), c.p)
    ensures OnCurve(c, x, r) && OnCurve(c, x, c.p - r)
  {
    hide Cong, RightSide;
    var p := c.p;
    RightSideCong(c, x);
    CongTrans(r * r, RightSide(c, x), x * x * x - 3 * x + c.b, p);
    NegatedSquare(p, r);
    CongTrans((p - r) * (p - r), r * r, x * x * x - 3 * x + c.b, p);
  }

  lemma NegatedSquare(p: int, r: int)
    requires p > 0
    ensures Cong((p - r) * (p - r), r * r, p)
  {
    hide Divides;
    assert (p - r) * (p - r) - r * r == p * (p - 2 * r);
    DividesMake(p, (p - r) * (p - r) - r * r, p - 2 * r);
  }

  /** Encoding what was decoded gives the bytes back exactly for the compressed forms, the plain
      uncompressed form and the one-byte infinity. */
  lemma RecodeExact(c: Curve, data: Bytes, root: Option<int>)
    requires Proper(c) && (root.Some? ==> 0 <= root.value < c.p)
    requires |data| >= COMPRESSED_LEN ==> RootFor(c, Wanted(c, data), root)
    requires DecodeWith(c, data, root).Key?
    ensures EncodePoint(DecodeWith(c, data, root).key, data[0] in {2, 3}) == Some(data) <==>
            data == [0] || data[0] in {2, 3} || (data[0] == 4 && |data| == UNCOMPRESSED_LEN)
  {
    hide Rlp.BigEndian, Rlp.FromBigEndian, RootFor, EncodePoint;
    var key := DecodeWith(c, data, root).key;
    if data[0] == 0 {
      InfinityBytes();
    } else {
      var xs := data[FLAG_LEN..FLAG_LEN + XORY_LEN];
      ValuePadded(xs);
      if data[0] in {2, 3} {
        DeCompressSound(c, data[0] % 2, Rlp.FromBigEndian(xs), root);
        EncodeCompressed(key);
        assert data == [data[0]] + xs;
      } else {
        var ys := data[FLAG_LEN + XORY_LEN..UNCOMPRESSED_LEN];
        ValuePadded(ys);
        EncodeUncompressed(key);
        assert |data| == UNCOMPRESSED_LEN ==> data == [data[0]] + xs + ys;
      }
    }
  }

  lemma InfinityBytes()
    ensures forall compressed :: EncodePoint(Infinity, compressed) == Some([0])
  {}

  /** The right side of a point of the curve is the square of its y, and zero only for y = 0. */
  lemma PointSquare(c: Curve, x: nat, y: nat)
    requires c.p > 1 && y < c.p && OnCurve(c, x, y)
    ensures var a := RightSide(c, x); IsSquare(a, c.p) && Cong(y * y, a, c.p)
    ensures Prime(c.p) ==> (RightSide(c, x) == 0 <==> y == 0)
  {
    hide Cong, RightSide, Prime;
    var a, p := RightSide(c, x), c.p;
    RightSideCong(c, x);
    CongSym(a, x * x * x - 3 * x + c.b, p);
    CongTrans(y * y, x * x * x - 3 * x + c.b, a, p);
    assert IsSquare(a, p);
    if y == 0 {
      CongSym(0, a, p);
      CongReduced(a, 0, p);
    } else if Prime(p) && a == 0 {
      TwoRoots(p, y, 0);
    }
  }

  lemma SameRoot(c: Curve, x: nat, y: nat, r: int)
    requires Prime(c.p) && y < c.p && OnCurve(c, x, y) && 0 <= r < c.p && Cong(r * r, RightSide(c, x), c.p)
    ensures r == y || r == c.p - y
  {
    hide Cong, RightSide, Prime, OnCurve;
    PrimeBeyond1(c.p);
    PointSquare(c, x, y);
    CongSym(y * y, RightSide(c, x), c.p);
    CongTrans(r * r, RightSide(c, x), y * y, c.p);
    TwoRoots(c.p, r, y);
  }

  function Found(r: Rooted): Option<int> {
    if r.Root? then Some(r.y) else None
  }

  /** For p = 1 modulo 4 the point with y = 0 has no root, and any other none as long as no drawn
      number is accepted. */
  ghost predicate Refused(c: Curve, x: nat, y: nat, primes: seq<nat>)
    requires c.p > 2
  {
    c.p % 4 == 1 && (y == 0 || NoneAccepted(c.p, RightSide(c, x), primes))
  }

  lemma PointAnswers(c: Curve, x: nat, y: nat, primes: seq<nat>, r: Rooted)
    requires Proper(c) && Prime(c.p) && y < c.p && OnCurve(c, x, y) && Answers(RightSide(c, x), c.p, primes, r)
    ensures r.Root? <==> !Refused(c, x, y, primes)
    ensures r.Root? ==> 0 <= r.y < c.p && (r.y == y || r.y == c.p - y)
  {
    hide Cong, RightSide, PowerRoot, Prime, NoneAccepted, OnCurve, IsSquare;
    PointSquare(c, x, y);
    if c.p % 4 == 3 { PowerRootExact(RightSide(c, x), c.p); }
    if r.Root? { SameRoot(c, x, y, r.y); }
  }

  /** Every affine point of a curve over a prime, compressed, is decoded to itself, whatever root
      curveSqrt finds; unless it is refused. */
  lemma CompressRoundTrip(c: Curve, x: nat, y: nat, primes: seq<nat>, r: Rooted)
    requires Proper(c) && Prime(c.p) && Answers(RightSide(c, x), c.p, primes, r)
    requires |Rlp.BigEndian(x)| <= XORY_LEN && y < c.p && OnCurve(c, x, y)
    ensures var data := EncodePoint(PubKey(x, y), true);
      && data.Some? && |data.value| == COMPRESSED_LEN && Wanted(c, data.value) == RightSide(c, x)
      && (r.Root? ==> 0 <= r.y < c.p)
      && DecodeWith(c, data.value, Found(r)) == if Refused(c, x, y, primes) then Malformed else Key(PubKey(x, y))
  {
    hide Rlp.BigEndian, Rlp.FromBigEndian, EncodePoint, RightSide, Answers, Prime, Padded, OnCurve, DecodeWith, Wanted;
    hide Refused;
    EncodeCompressed(PubKey(x, y));
    PaddedValue(x, XORY_LEN);
    PointAnswers(c, x, y, primes, r);
    DecodeCompressed(c, y % 2, Padded(x, XORY_LEN), Found(r), x, y);
  }

  lemma DecodeCompressed(c: Curve, parity: nat, xs: Bytes, root: Option<int>, x: nat, y: nat)
    requires Proper(c) && |xs| == XORY_LEN && Rlp.FromBigEndian(xs) == x && y < c.p && parity == y % 2
    requires root.Some? ==> 0 <= root.value < c.p && (root.value == y || root.value == c.p - y)
    ensures var data := [if parity == 0 then 2 else 3] + xs;
      && Wanted(c, data) == RightSide(c, x)
      && DecodeWith(c, data, root) == if root.Some? then Key(PubKey(x, y)) else Malformed
  {
    hide Rlp.BigEndian, Rlp.FromBigEndian, RightSide;
    var data := [if parity == 0 then 2 else 3] + xs;
    assert data[FLAG_LEN..FLAG_LEN + XORY_LEN] == xs;
    assert (c.p - y) % 2 == 1 - parity;
  }

  /** So does every pair of coordinates in the uncompressed form. */
  lemma UncompressedRoundTrip(c: Curve, x: nat, y: nat)
    requires |Rlp.BigEndian(x)| <= XORY_LEN && |Rlp.BigEndian(y)| <= XORY_LEN
    ensures EncodePoint(PubKey(x, y), false).Some?
         && DecodeWith(c, EncodePoint(PubKey(x, y), false).value, None) == Key(PubKey(x, y))
  {
    hide Rlp.BigEndian, Rlp.FromBigEndian, EncodePoint, Padded;
    EncodeUncompressed(PubKey(x, y));
    PaddedValue(x, XORY_LEN);
    PaddedValue(y, XORY_LEN);
    var data := [4] + Padded(x, XORY_LEN) + Padded(y, XORY_LEN);
    assert data[FLAG_LEN..FLAG_LEN + XORY_LEN] == Padded(x, XORY_LEN);
    assert data[FLAG_LEN + XORY_LEN..UNCOMPRESSED_LEN] == Padded(y, XORY_LEN);
  }

  /** The decoding as it runs, drawing random numbers from primes. */
  method DecodePoint(c: Curve, data: Bytes, primes: seq<nat>) returns (r: Decoded, exhausted: bool)
    requires Proper(c)
    ensures r.Key? && |data| > 0 && data[0] in {2, 3} ==>
      r.key.PubKey? && OnCurve(c, r.key.x, r.key.y) && EncodePoint(r.key, true) == Some(data)
    ensures c.p % 4 == 3 && |data| >= COMPRESSED_LEN && Prime(c.p) ==>
      !exhausted && r == DecodeWith(c, data, PowerRoot(Wanted(c, data), c.p))
    ensures |data| < COMPRESSED_LEN || data[0] !in {2, 3} ==> r == DecodeWith(c, data, None)
    ensures |data| == COMPRESSED_LEN && data[0] in {2, 3} ==>
      exists root :: Answers(Wanted(c, data), c.p, primes, root) &&
                     r == DecodeWith(c, data, Found(root)) && exhausted == root.Exhausted?
    ensures |data| == COMPRESSED_LEN && data[0] in {2, 3} && c.p % 4 == 1 && Prime(c.p) ==>
      var a := Wanted(c, data);
      && (r.Key? <==> a != 0 && IsSquare(a, c.p) && !NoneAccepted(c.p, a, primes))
      && (exhausted <==> a != 0 && IsSquare(a, c.p) && NoneAccepted(c.p, a, primes))
  {
    hide Rlp.BigEndian, Rlp.FromBigEndian, EncodePoint, Cong, RightSide, PowerRoot, Prime, OnCurve, IsSquare;
    exhausted := false;
    var root: Option<int> := None;
    if |data| == COMPRESSED_LEN && data[0] in {2, 3} {
      var a := Wanted(c, data);
      var rooted := CurveSqrt(a, c.p, primes);
      if c.p % 4 == 3 && Prime(c.p) { PowerRootExact(a, c.p); }
      exhausted := rooted.Exhausted?;
      root := Found(rooted);
      if root.Some? {
        DeCompressSound(c, data[0] % 2, Rlp.FromBigEndian(data[FLAG_LEN..FLAG_LEN + XORY_LEN]), root);
        RecodeExact(c, data, root);
      }
    }
    r := DecodeWith(c, data, root);
  }
}
