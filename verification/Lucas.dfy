/** crypto/encode.go: the doubling computation of Lucas sequences. */
module Lucas {
  import opened NumberTheory
  import MerkleBits

  /** The sequence with w(n+1) = P w(n) - Q w(n-1) from two first terms. */
  function Seq(P: int, Q: int, w0: int, w1: int, n: nat): int {
    if n == 0 then w0 else if n == 1 then w1 else P * Seq(P, Q, w0, w1, n - 1) - Q * Seq(P, Q, w0, w1, n - 2)
  }

  function U(P: int, Q: int, n: nat): int {
    Seq(P, Q, 0, 1, n)
  }

  function V(P: int, Q: int, n: nat): int {
    Seq(P, Q, 2, P, n)
  }

  /** Every sequence of the family adds indices alike. */
  lemma {:induction false} AddIndices(P: int, Q: int, w0: int, w1: int, m: nat, n: nat)
    requires n <= m
    ensures Seq(P, Q, w0, w1, m + n) == Seq(P, Q, w0, w1, m) * V(P, Q, n) - Pow(Q, n) * Seq(P, Q, w0, w1, m - n)
  {
    if n == 0 {
    } else if n == 1 {
      assert Pow(Q, 1) == Q;
    } else {
      AddIndices(P, Q, w0, w1, m, n - 1);
      AddIndices(P, Q, w0, w1, m, n - 2);
      Backwards(P, Q, w0, w1, m - n);
      AddStep(P, Q, Seq(P, Q, w0, w1, m), V(P, Q, n - 1), V(P, Q, n - 2), Pow(Q, n - 2),
              Seq(P, Q, w0, w1, m - n), Seq(P, Q, w0, w1, m - n + 1), Seq(P, Q, w0, w1, m - n + 2));
    }
  }

  lemma Backwards(P: int, Q: int, w0: int, w1: int, i: nat)
    ensures Seq(P, Q, w0, w1, i + 2) == P * Seq(P, Q, w0, w1, i + 1) - Q * Seq(P, Q, w0, w1, i)
  {}

  lemma AddStep(P: int, Q: int, w: int, v1: int, v2: int, q: int, a: int, b: int, c: int)
    requires c == P * b - Q * a
    ensures P * (w * v1 - (Q * q) * b) - Q * (w * v2 - q * c) == w * (P * v1 - Q * v2) - (Q * (Q * q)) * a
  {
    assert P * (w * v1) == w * (P * v1) && Q * (w * v2) == w * (Q * v2);
    assert Q * (q * (P * b - Q * a)) == (Q * q) * (P * b) - (Q * q) * (Q * a);
    assert P * ((Q * q) * b) == (Q * q) * (P * b);
    assert (Q * q) * (Q * a) == (Q * (Q * q)) * a;
    assert w * (P * v1 - Q * v2) == w * (P * v1) - w * (Q * v2);
  }

  lemma Double(P: int, Q: int, t: nat)
    ensures V(P, Q, 2 * t) == V(P, Q, t) * V(P, Q, t) - 2 * Pow(Q, t)
    ensures V(P, Q, 2 * t + 1) == V(P, Q, t + 1) * V(P, Q, t) - P * Pow(Q, t)
    ensures U(P, Q, 2 * t + 1) == U(P, Q, t + 1) * V(P, Q, t) - Pow(Q, t)
    ensures U(P, Q, 2 * t + 2) == U(P, Q, t + 1) * V(P, Q, t + 1)
  {
    hide Seq, Pow;
    FirstOf(P, Q, 2, P);
    FirstOf(P, Q, 0, 1);
    AddIndices(P, Q, 2, P, t, t);
    AddIndices(P, Q, 2, P, t + 1, t);
    AddIndices(P, Q, 0, 1, t + 1, t);
    AddIndices(P, Q, 0, 1, t + 1, t + 1);
  }

  lemma FirstOf(P: int, Q: int, w0: int, w1: int)
    ensures Seq(P, Q, w0, w1, 0) == w0 && Seq(P, Q, w0, w1, 1) == w1
  {
  }

  // ---------------------------------------------------------------- bits

  function Shr(k: nat, j: nat): nat {
    if j == 0 then k else Shr(k, j - 1) / 2
  }

  function Bit(k: nat, j: nat): nat {
    Shr(k, j) % 2
  }

  lemma {:induction false} ShrHalf(k: nat, j: nat)
    ensures Shr(k, j + 1) == Shr(k / 2, j)
  {
    if j > 0 { ShrHalf(k, j - 1); }
  }

  lemma {:induction false} ShrAll(k: nat)
    ensures Shr(k, MerkleBits.BitLen(k)) == 0
    ensures k > 0 ==> exists j :: 0 <= j < MerkleBits.BitLen(k) && Bit(k, j) == 1
  {
    if k > 0 {
      ShrAll(k / 2);
      ShrHalf(k, MerkleBits.BitLen(k / 2));
      if k % 2 == 1 {
        assert Bit(k, 0) == 1;
      } else {
        var j :| 0 <= j < MerkleBits.BitLen(k / 2) && Bit(k / 2, j) == 1;
        ShrHalf(k, j);
        assert Bit(k, j + 1) == 1;
      }
    }
  }

  method GetLowestSetBit(k: nat) returns (i: nat)
    requires k > 0
    ensures Bit(k, i) == 1 && i < MerkleBits.BitLen(k)
    ensures forall j :: 0 <= j < i ==> Bit(k, j) == 0
  {
    ShrAll(k);
    ghost var top :| 0 <= top < MerkleBits.BitLen(k) && Bit(k, top) == 1;
    i := 0;
    while Bit(k, i) != 1
      invariant i <= top
      invariant forall j :: 0 <= j < i ==> Bit(k, j) == 0
      decreases top - i
    {
      i := i + 1;
    }
  }

  // ---------------------------------------------------------------- the registers

  lemma MulSub(a: int, x: int, b: int, y: int, c: int, z: int, p: int)
    requires p > 0 && Cong(a, x, p) && Cong(b, y, p) && Cong(c, z, p)
    ensures Cong((a * b - c) % p, x * y - z, p)
  {
    hide Cong;
    CongMul(a, x, b, y, p);
    CongAdd(a * b, x * y, c, z, p);
    CongSame(a * b - c, p);
    CongTrans((a * b - c) % p, a * b - c, x * y - z, p);
  }

  lemma MulReduced(a: int, x: int, b: int, y: int, p: int)
    requires p > 0 && Cong(a, x, p) && Cong(b, y, p)
    ensures Cong((a * b) % p, x * y, p)
  {
    hide Cong;
    CongSame(0, p);
    MulSub(a, x, b, y, 0, 0, p);
  }

  lemma Times(c: int, b: int, y: int, p: int)
    requires p > 0 && Cong(b, y, p)
    ensures Cong(c * b, c * y, p)
  {
    hide Cong;
    CongSame(c, p);
    CongMul(c, c, b, y, p);
  }

  /** V(t), V(t+1) and Q to the t, modulo p. */
  ghost predicate VState(p: int, P: int, Q: int, t: nat, vl: int, vh: int, ql: int, qh: int)
    requires p > 0
  {
    Cong(vl, V(P, Q, t), p) && Cong(vh, V(P, Q, t + 1), p) && Cong(ql * qh, Pow(Q, t), p)
  }

  /** A one bit doubles the index and adds one. */
  lemma OneBit(p: int, P: int, Q: int, t: nat, vl: int, vh: int, ql: int, qh: int)
    requires p > 0 && VState(p, P, Q, t, vl, vh, ql, qh)
    ensures var l := (ql * qh) % p; var h := (l * Q) % p;
      && VState(p, P, Q, 2 * t + 1, (vh * vl - P * l) % p, (vh * vh - 2 * h) % p, l, h)
      && Cong(l, Pow(Q, t), p)
  {
    hide Cong, V, U;
    var l := (ql * qh) % p;
    CongSame(ql * qh, p);
    CongTrans(l, ql * qh, Pow(Q, t), p);
    CongSame(Q, p);
    MulReduced(l, Pow(Q, t), Q, Q, p);
    var h := (l * Q) % p;
    Power(Q, t);
    Double(P, Q, t);
    Double(P, Q, t + 1);
    Times(P, l, Pow(Q, t), p);
    Times(2, h, Pow(Q, t + 1), p);
    MulSub(vh, V(P, Q, t + 1), vl, V(P, Q, t), P * l, P * Pow(Q, t), p);
    MulSub(vh, V(P, Q, t + 1), vh, V(P, Q, t + 1), 2 * h, 2 * Pow(Q, t + 1), p);
    CongMul(l, Pow(Q, t), h, Pow(Q, t + 1), p);
    PowAdd(Q, t, t + 1);
  }

  lemma Power(Q: int, t: nat)
    ensures Pow(Q, t) * Q == Pow(Q, t + 1)
  {}

  /** A zero bit doubles the index. */
  lemma ZeroBit(p: int, P: int, Q: int, t: nat, vl: int, vh: int, ql: int, qh: int)
    requires p > 0 && VState(p, P, Q, t, vl, vh, ql, qh)
    ensures var l := (ql * qh) % p;
      && VState(p, P, Q, 2 * t, (vl * vl - 2 * l) % p, (vh * vl - P * l) % p, l, l)
      && Cong(l, Pow(Q, t), p)
  {
    hide Cong, V, U;
    var l := (ql * qh) % p;
    CongSame(ql * qh, p);
    CongTrans(l, ql * qh, Pow(Q, t), p);
    Double(P, Q, t);
    Times(P, l, Pow(Q, t), p);
    Times(2, l, Pow(Q, t), p);
    MulSub(vh, V(P, Q, t + 1), vl, V(P, Q, t), P * l, P * Pow(Q, t), p);
    MulSub(vl, V(P, Q, t), vl, V(P, Q, t), 2 * l, 2 * Pow(Q, t), p);
    CongMul(l, Pow(Q, t), l, Pow(Q, t), p);
    PowAdd(Q, t, t);
  }

  lemma OneBitU(p: int, P: int, Q: int, t: nat, uh: int, vh: int)
    requires p > 0 && Cong(uh, U(P, Q, t + 1), p) && Cong(vh, V(P, Q, t + 1), p)
    ensures Cong((uh * vh) % p, U(P, Q, 2 * t + 2), p)
  {
    hide Cong, V, U;
    Double(P, Q, t);
    MulReduced(uh, U(P, Q, t + 1), vh, V(P, Q, t + 1), p);
  }

  lemma ZeroBitU(p: int, P: int, Q: int, t: nat, uh: int, vl: int, l: int)
    requires p > 0 && Cong(uh, U(P, Q, t + 1), p) && Cong(vl, V(P, Q, t), p) && Cong(l, Pow(Q, t), p)
    ensures Cong((uh * vl - l) % p, U(P, Q, 2 * t + 1), p)
  {
    hide Cong, V, U;
    Double(P, Q, t);
    MulSub(uh, U(P, Q, t + 1), vl, V(P, Q, t), l, Pow(Q, t), p);
  }

  /** A trailing zero doubles V's index. */
  lemma Trailing(p: int, P: int, Q: int, t: nat, vl: int, ql: int)
    requires p > 0 && Cong(vl, V(P, Q, t), p) && Cong(ql, Pow(Q, t), p)
    ensures Cong((vl * vl - 2 * ql) % p, V(P, Q, 2 * t), p) && Cong((ql * ql) % p, Pow(Q, 2 * t), p)
  {
    hide Cong, V, U;
    Double(P, Q, t);
    Times(2, ql, Pow(Q, t), p);
    MulSub(vl, V(P, Q, t), vl, V(P, Q, t), 2 * ql, 2 * Pow(Q, t), p);
    MulReduced(ql, Pow(Q, t), ql, Pow(Q, t), p);
    PowAdd(Q, t, t);
  }

  // ---------------------------------------------------------------- the computation

  lemma Begin(p: int, P: int, Q: int)
    requires p > 0
    ensures VState(p, P, Q, 0, 2, P, 1, 1) && Cong(1, U(P, Q, 1), p)
  {
    hide Cong;
    CongSame(2, p);
    CongSame(P, p);
    CongSame(1, p);
  }

  /** The bits above the lowest one. */
  method UpperBits(p: int, P: int, Q: int, k: nat, s: nat) returns (uh: int, vl: int, vh: int, ql: int, qh: int)
    requires p > 0 && s < MerkleBits.BitLen(k)
    ensures VState(p, P, Q, Shr(k, s + 1), vl, vh, ql, qh) && Cong(uh, U(P, Q, Shr(k, s + 1) + 1), p)
  {
    hide Cong, VState, U;
    uh, vl, ql, qh, vh := 1, 2, 1, 1, P;
    ShrAll(k);
    Begin(p, P, Q);
    var j := MerkleBits.BitLen(k) - 1;
    while j >= s + 1
      invariant s <= j < MerkleBits.BitLen(k)
      invariant VState(p, P, Q, Shr(k, j + 1), vl, vh, ql, qh)
      invariant Cong(uh, U(P, Q, Shr(k, j + 1) + 1), p)
    {
      ghost var t := Shr(k, j + 1);
      ghost var l, m := vl, vh;
      VParts(p, P, Q, t, vl, vh, ql, qh);
      if Bit(k, j) == 1 {
        OneBit(p, P, Q, t, vl, vh, ql, qh);
        OneBitU(p, P, Q, t, uh, vh);
        ql := (ql * qh) % p;
        qh := (ql * Q) % p;
        uh := (uh * vh) % p;
        vl := (vh * vl - P * ql) % p;
        vh := (vh * vh - 2 * qh) % p;
      } else {
        ZeroBit(p, P, Q, t, vl, vh, ql, qh);
        ZeroBitU(p, P, Q, t, uh, vl, (ql * qh) % p);
        ql := (ql * qh) % p;
        qh := ql;
        uh := (uh * vl - ql) % p;
        vh := (vh * vl - P * ql) % p;
        vl := (vl * vl - 2 * ql) % p;
      }
      assert Shr(k, j) == 2 * t + Bit(k, j);
      j := j - 1;
    }
  }

  lemma VParts(p: int, P: int, Q: int, t: nat, vl: int, vh: int, ql: int, qh: int)
    requires p > 0 && VState(p, P, Q, t, vl, vh, ql, qh)
    ensures Cong(vl, V(P, Q, t), p) && Cong(vh, V(P, Q, t + 1), p) && Cong(ql * qh, Pow(Q, t), p)
  {}

  /** The lowest one bit. */
  method LowestBit(p: int, P: int, Q: int, ghost t: nat, u: int, v: int, vh: int, l: int, h: int)
    returns (uh: int, vl: int, ql: int)
    requires p > 0 && VState(p, P, Q, t, v, vh, l, h) && Cong(u, U(P, Q, t + 1), p)
    ensures Cong(uh, U(P, Q, 2 * t + 1), p) && Cong(vl, V(P, Q, 2 * t + 1), p) && Cong(ql, Pow(Q, 2 * t + 1), p)
    ensures 0 <= uh < p && 0 <= vl < p
  {
    hide Cong, VState, U, V;
    VParts(p, P, Q, t, v, vh, l, h);
    OneBit(p, P, Q, t, v, vh, l, h);
    ZeroBitU(p, P, Q, t, u, v, (l * h) % p);
    ql := (l * h) % p;
    var qh := (ql * Q) % p;
    uh := (u * v - ql) % p;
    vl := (vh * v - P * ql) % p;
    VParts(p, P, Q, 2 * t + 1, vl, (vh * vh - 2 * qh) % p, ql, qh);
    CongSame(ql * qh, p);
    CongTrans((ql * qh) % p, ql * qh, Pow(Q, 2 * t + 1), p);
    ql := (ql * qh) % p;
  }

  /** The zero bits below it. */
  method LowerBits(p: int, P: int, Q: int, k: nat, s: nat, u: int, v: int, q: int) returns (uh: int, vl: int)
    requires p > 0 && 0 <= v < p && Cong(v, V(P, Q, Shr(k, s)), p) && Cong(q, Pow(Q, Shr(k, s)), p)
    requires forall j :: 0 <= j < s ==> Bit(k, j) == 0
    ensures Cong(vl, V(P, Q, k), p) && 0 <= vl < p
    ensures if s == 0 then uh == u else uh % p == 0
  {
    hide Cong, U, V;
    uh, vl := u, v;
    var ql := q;
    for j := 1 to s + 1
      invariant Cong(vl, V(P, Q, Shr(k, s + 1 - j)), p) && Cong(ql, Pow(Q, Shr(k, s + 1 - j)), p)
      invariant 0 <= vl < p
      invariant if j == 1 then uh == u else uh % p == 0
    {
      ghost var i := s - j;
      assert Bit(k, i) == 0 && Shr(k, i) == 2 * Shr(k, i + 1);
      Trailing(p, P, Q, Shr(k, i + 1), vl, ql);
      ByModulus(uh * vl, p);
      uh := uh * vl;
      uh := uh * p;
      vl := (vl * vl - 2 * ql) % p;
      ql := (ql * ql) % p;
    }
  }

  lemma ByModulus(a: int, p: int)
    requires p > 0
    ensures (a * p) % p == 0
  {
    DividesMake(p, a * p, a);
  }

  /** V(k) modulo p for every k. The other result is U(k) for odd k; for even k the last loop
      multiplies by p where it should reduce, and the result stands for U(k) only if p divides it. */
  method FastLucasSequence(p: int, P: int, Q: int, k: nat) returns (uh: int, vl: int)
    requires p > 0 && k > 0
    ensures 0 <= vl < p && vl == V(P, Q, k) % p
    ensures k % 2 == 1 ==> uh == U(P, Q, k) % p
    ensures uh % p == U(P, Q, k) % p <==> k % 2 == 1 || U(P, Q, k) % p == 0
  {
    hide Cong, VState, U, V;
    var s := GetLowestSetBit(k);
    var vh, ql, qh;
    uh, vl, vh, ql, qh := UpperBits(p, P, Q, k, s);
    ghost var t := Shr(k, s + 1);
    uh, vl, ql := LowestBit(p, P, Q, t, uh, vl, vh, ql, qh);
    ghost var u := uh;
    assert Shr(k, s) == 2 * t + 1;
    assert Shr(k, 0) == k;
    assert s > 0 ==> Bit(k, 0) == 0;
    uh, vl := LowerBits(p, P, Q, k, s, uh, vl, ql);
    Residue(vl, V(P, Q, k), p);
    if s == 0 { Residue(u, U(P, Q, k), p); }
  }

  lemma Residue(a: int, b: int, p: int)
    requires 0 <= a < p && Cong(a, b, p)
    ensures a == b % p && a % p == b % p
  {
    CongMod(a, b, p);
  }
}
