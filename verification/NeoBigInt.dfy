/** common/bigint.go: integers as little-endian two's complement byte strings, the shortest ones. */
module NeoBigInt {
  import opened Words
  import opened ZeroCopy
  import Rlp

  // ---------------------------------------------------------------- the format

  /** The value in two's complement. */
  function Signed(b: Bytes): int {
    if b == [] then 0
    else if |b| == 1 then (if b[0] < 0x80 then b[0] else b[0] - 0x100)
    else b[0] + 0x100 * Signed(b[1..])
  }

  /** The last byte says more than the sign the byte before it gives. */
  predicate Tight(b: Bytes) {
    |b| >= 2 ==> !(b[|b| - 1] == 0 && b[|b| - 2] < 0x80) && !(b[|b| - 1] == 0xff && b[|b| - 2] >= 0x80)
  }

  predicate Minimal(b: Bytes) {
    Tight(b) && b != [0]
  }

  /** The form with at least one byte. */
  function Digits(x: int): (b: Bytes)
    ensures |b| > 0
    decreases if x < 0 then -x else x
  {
    if -0x80 <= x < 0x80 then [x % 0x100] else [x % 0x100] + Digits(x / 0x100)
  }

  function Neo(x: int): Bytes {
    if x == 0 then [] else Digits(x)
  }

  lemma {:induction false} DigitsValue(x: int)
    ensures Signed(Digits(x)) == x
    decreases if x < 0 then -x else x
  {
    if !(-0x80 <= x < 0x80) {
      DigitsValue(x / 0x100);
      assert Digits(x)[1..] == Digits(x / 0x100);
    }
  }

  /** A tight string of two bytes or more holds no value of one byte. */
  lemma {:induction false} TightLarge(b: Bytes)
    requires |b| >= 2 && Tight(b)
    ensures !(-0x80 <= Signed(b) < 0x80)
    decreases |b|
  {
    if |b| > 2 {
      TightLarge(b[1..]);
    }
  }

  lemma SignedParts(b: Bytes)
    requires |b| >= 2
    ensures Signed(b) % 0x100 == b[0] && Signed(b) / 0x100 == Signed(b[1..])
  {
    LowByte(b[0], Signed(b[1..]));
  }

  lemma LowByte(low: Byte, high: int)
    ensures (low + 0x100 * high) % 0x100 == low && (low + 0x100 * high) / 0x100 == high
  {}

  lemma {:induction false} TightDigits(b: Bytes)
    requires |b| > 0 && Tight(b)
    ensures b == Digits(Signed(b))
    decreases |b|
  {
    if |b| >= 2 {
      TightLarge(b);
      TightDigits(b[1..]);
      SignedParts(b);
      hide Signed;
      assert b == [b[0]] + b[1..];
    }
  }

  lemma {:induction false} DigitsTight(x: int)
    ensures Tight(Digits(x))
    decreases if x < 0 then -x else x
  {
    if !(-0x80 <= x < 0x80) {
      DigitsTight(x / 0x100);
      var d := Digits(x / 0x100);
      assert Digits(x) == [x % 0x100] + d;
      if |d| > 1 { assert Digits(x)[|d|] == d[|d| - 1] && Digits(x)[|d| - 1] == d[|d| - 2]; }
    }
  }

  /** The shortest form of a value, and the only one that is minimal. */
  lemma NeoCanonical(b: Bytes)
    ensures Neo(Signed(b)) == b <==> Minimal(b)
  {
    var x := Signed(b);
    DigitsTight(x);
    DigitsValue(x);
    if b != [] && Minimal(b) { TightDigits(b); }
  }

  lemma NeoRoundTrip(x: int)
    ensures Signed(Neo(x)) == x && Minimal(Neo(x))
  {
    DigitsValue(x);
    NeoCanonical(Neo(x));
  }

  lemma {:induction false} DigitsShortest(b: Bytes)
    requires |b| > 0
    ensures |Digits(Signed(b))| <= |b| && (|Digits(Signed(b))| == |b| ==> Digits(Signed(b)) == b)
    decreases |b|
  {
    if |b| >= 2 {
      DigitsShortest(b[1..]);
      SignedParts(b);
      DigitsOf(Signed(b));
      hide Signed, Digits;
      assert [b[0]] + b[1..] == b;
    }
  }

  lemma DigitsOf(x: int)
    ensures -0x80 <= x < 0x80 ==> |Digits(x)| == 1
    ensures !(-0x80 <= x < 0x80) ==> Digits(x) == [x % 0x100] + Digits(x / 0x100)
  {}

  /** No byte string of the value is shorter, and no other one as short. */
  lemma NeoShortest(b: Bytes)
    ensures |Neo(Signed(b))| <= |b|
    ensures |Neo(Signed(b))| == |b| ==> Neo(Signed(b)) == b
  {
    if b != [] { DigitsShortest(b); }
  }

  // ---------------------------------------------------------------- values of parts

  lemma {:induction false} UnsignedLast(b: Bytes, last: Byte)
    ensures FromLittleEndian(b + [last]) == FromLittleEndian(b) + Pow256(|b|) * last
  {
    if b == [] {
      assert b + [last] == [last];
    } else {
      UnsignedLast(b[1..], last);
      assert (b + [last])[1..] == b[1..] + [last];
      Shift(Pow256(|b| - 1), last);
    }
  }

  lemma Shift(p: int, last: int)
    ensures 0x100 * (p * last) == (0x100 * p) * last
  {}

  /** Two's complement is the unsigned value, less a power of 256 under a set top bit. */
  lemma {:induction false} SignedUnsigned(b: Bytes)
    requires |b| > 0
    ensures Signed(b) == FromLittleEndian(b) - if b[|b| - 1] >= 0x80 then Pow256(|b|) else 0
    decreases |b|
  {
    if |b| == 1 {
      assert Pow256(1) == 0x100;
      assert FromLittleEndian(b) == b[0] + 0x100 * FromLittleEndian(b[1..]);
    } else {
      SignedUnsigned(b[1..]);
    }
  }

  function Reversed(b: Bytes): (r: Bytes)
    ensures |r| == |b|
  {
    if b == [] then [] else [b[|b| - 1]] + Reversed(b[..|b| - 1])
  }

  lemma {:induction false} ReversedAt(b: Bytes, i: nat)
    requires i < |b|
    ensures Reversed(b)[i] == b[|b| - 1 - i]
  {
    if i > 0 { ReversedAt(b[..|b| - 1], i - 1); }
  }

  lemma {:induction false} ReversedValue(b: Bytes)
    ensures FromLittleEndian(Reversed(b)) == Rlp.FromBigEndian(b)
    decreases |b|
  {
    if b != [] {
      ReversedValue(b[..|b| - 1]);
      assert Reversed(b)[1..] == Reversed(b[..|b| - 1]);
    }
  }

  lemma ReversedTwice(b: Bytes)
    ensures Reversed(Reversed(b)) == b
  {
    forall i | 0 <= i < |b| ensures Reversed(Reversed(b))[i] == b[i] {
      ReversedAt(Reversed(b), i);
      ReversedAt(b, |b| - 1 - i);
    }
  }

  function Inverted(b: Bytes): (r: Bytes)
    ensures |r| == |b| && forall i :: 0 <= i < |b| ==> r[i] == 0xff - b[i]
  {
    if b == [] then [] else [0xff - b[0]] + Inverted(b[1..])
  }

  lemma {:induction false} InvertedValue(b: Bytes)
    ensures FromLittleEndian(Inverted(b)) == Pow256(|b|) - 1 - FromLittleEndian(b)
  {
    if b != [] {
      InvertedValue(b[1..]);
      assert Inverted(b)[1..] == Inverted(b[1..]);
    }
  }

  /** One more, dropping the carry out of the top. */
  function Next(b: Bytes): (r: Bytes)
    ensures |r| == |b|
  {
    if b == [] then [] else if b[0] == 0xff then [0] + Next(b[1..]) else [b[0] + 1] + b[1..]
  }

  lemma {:induction false} NextValue(b: Bytes)
    requires FromLittleEndian(b) + 1 < Pow256(|b|)
    ensures FromLittleEndian(Next(b)) == FromLittleEndian(b) + 1
  {
    if b != [] && b[0] == 0xff {
      NextValue(b[1..]);
      assert Next(b)[1..] == Next(b[1..]);
    }
  }

  // ---------------------------------------------------------------- in place

  method BytesReverse(u: array<Byte>)
    modifies u
    ensures u[..] == Reversed(old(u[..]))
  {
    ghost var was := u[..];
    var i, j := 0, u.Length - 1;
    while i < j
      invariant 0 <= i && j == u.Length - 1 - i && i <= j + 1
      invariant forall k :: 0 <= k < i || j < k < u.Length ==> u[k] == was[u.Length - 1 - k]
      invariant forall k :: i <= k <= j ==> u[k] == was[k]
    {
      u[i], u[j] := u[j], u[i];
      i, j := i + 1, j - 1;
    }
    forall k | 0 <= k < u.Length ensures u[..][k] == Reversed(was)[k] {
      ReversedAt(was, k);
    }
  }

  method Invert(u: array<Byte>)
    modifies u
    ensures u[..] == Inverted(old(u[..]))
  {
    for i := 0 to u.Length
      invariant forall k :: 0 <= k < i ==> u[k] == 0xff - old(u[k])
      invariant forall k :: i <= k < u.Length ==> u[k] == old(u[k])
    {
      u[i] := 0xff - u[i];
    }
  }

  /** The carry passes over the bytes 0xff. */
  lemma {:induction false} NextAt(b: Bytes, i: nat)
    requires i <= |b| && (forall k :: 0 <= k < i ==> b[k] == 0xff) && (i < |b| ==> b[i] != 0xff)
    ensures forall k :: 0 <= k < |b| ==> Next(b)[k] == if k < i then 0 else if k == i then b[k] as int + 1 else b[k]
    decreases i
  {
    if i > 0 {
      NextAt(b[1..], i - 1);
      assert Next(b) == [0] + Next(b[1..]);
    }
  }

  /** The carry loop of the negative case. */
  method Increment(u: array<Byte>)
    modifies u
    ensures u[..] == Next(old(u[..]))
  {
    hide Next;
    ghost var was := u[..];
    for i := 0 to u.Length
      invariant forall k :: 0 <= k < i ==> was[k] == 0xff && u[k] == 0
      invariant forall k :: i <= k < u.Length ==> u[k] == was[k]
    {
      if u[i] == 0xff {
        u[i] := 0;
      } else {
        NextAt(was, i);
        u[i] := u[i] + 1;
        return;
      }
    }
    NextAt(was, u.Length);
  }

  // ---------------------------------------------------------------- the two conversions

  /** What the sign byte does to a value and to its length. */
  lemma Widened(b: Bytes, sign: Byte)
    requires |b| > 0 && sign in {0, 0xff} && (sign == 0 <==> b[|b| - 1] >= 0x80)
    ensures Tight(b + [sign])
    ensures Signed(b + [sign]) == if sign == 0 then FromLittleEndian(b) else FromLittleEndian(b) - Pow256(|b|)
  {
    UnsignedLast(b, sign);
    SignedUnsigned(b + [sign]);
    TopByte(Pow256(|b|), FromLittleEndian(b));
  }

  lemma TopByte(p: int, v: int)
    ensures (v + p * 0xff) - 0x100 * p == v - p
  {}

  lemma LeadingByte(n: nat)
    requires n > 0
    ensures var b := Reversed(Rlp.BigEndian(n)); |b| > 0 && b[|b| - 1] != 0 && FromLittleEndian(b) == n
    ensures Pow256(|Rlp.BigEndian(n)| - 1) <= n < Pow256(|Rlp.BigEndian(n)|)
  {
    Rlp.BigEndianRoundTrip(n);
    var e := Rlp.BigEndian(n);
    ReversedValue(e);
    ReversedAt(e, |e| - 1);
    Rlp.BigEndianLength(n, |e|);
    Rlp.BigEndianLength(n, |e| - 1);
  }

  /** A negative value of one byte more than its magnitude needs no sign byte only if tight. */
  lemma NegativeTight(b: Bytes, n: nat)
    requires |b| > 0 && FromLittleEndian(b) == Pow256(|b|) - n && Pow256(|b| - 1) <= n
    requires b[|b| - 1] >= 0x80
    ensures Tight(b)
  {
    var front, last := b[..|b| - 1], b[|b| - 1];
    assert front + [last] == b;
    UnsignedLast(front, last);
    if |b| >= 2 && last == 0xff {
      var p := Pow256(|front|);
      assert Pow256(|b|) == 0x100 * p;
      TopByte(p, 0);
      assert FromLittleEndian(front) <= 0;
      var f2 := front[..|front| - 1];
      assert f2 + [front[|front| - 1]] == front;
      UnsignedLast(f2, front[|front| - 1]);
      NoTop(Pow256(|f2|), front[|front| - 1]);
    }
  }

  lemma NoTop(p: int, d: nat)
    requires p > 0
    ensures p * d <= 0 ==> d == 0
  {
    if d >= 1 { assert p * d >= p; }
  }

  /** Both branches give the shortest form. */
  method BigIntToNeoBytes(x: int) returns (r: Bytes)
    ensures r == Neo(x)
  {
    hide Neo, Signed, FromLittleEndian, Rlp.BigEndian, Reversed, Next, Inverted, Digits, Pow256;
    var n: nat := if x < 0 then -x else x;
    var abs := Rlp.BigEndian(n);
    if |abs| == 0 {
      Nothing(x, n);
      return [];
    }
    Something(x, n);
    LeadingByte(n);
    var bs := new Byte[|abs|](i requires 0 <= i < |abs| => abs[i]);
    assert bs[..] == abs;
    BytesReverse(bs);
    if x < 0 {
      Invert(bs);
      Increment(bs);
      r := bs[..];
      Negated(n, r);
      if r[|r| - 1] < 0x80 {
        Widened(r, 0xff);
        r := r + [0xff];
      } else {
        NegativeTight(r, n);
        SignedUnsigned(r);
      }
    } else {
      r := bs[..];
      if r[|r| - 1] >= 0x80 {
        Widened(r, 0);
        r := r + [0];
      } else {
        SignedUnsigned(r);
      }
    }
    Recognised(r, x);
  }

  lemma Nothing(x: int, n: nat)
    requires (n == if x < 0 then -x else x) && Rlp.BigEndian(n) == []
    ensures Neo(x) == []
  {
    Rlp.BigEndianRoundTrip(n);
  }

  lemma Something(x: int, n: nat)
    requires (n == if x < 0 then -x else x) && |Rlp.BigEndian(n)| > 0
    ensures n > 0
  {}

  lemma Negated(n: nat, r: Bytes)
    requires n > 0 && r == Next(Inverted(Reversed(Rlp.BigEndian(n))))
    ensures |r| == |Rlp.BigEndian(n)| && FromLittleEndian(r) == Pow256(|r|) - n
  {
    LeadingByte(n);
    var b := Reversed(Rlp.BigEndian(n));
    InvertedValue(b);
    NextValue(Inverted(b));
  }

  lemma Recognised(b: Bytes, x: int)
    requires Tight(b) && Signed(b) == x && x != 0
    ensures b == Neo(x)
  {
    assert Signed([0]) == 0;
    NeoCanonical(b);
  }

  method BigIntFromNeoBytes(ba: Bytes) returns (x: int)
    ensures x == Signed(ba)
  {
    hide Signed, FromLittleEndian, Rlp.FromBigEndian, Reversed, Inverted, Pow256;
    if |ba| == 0 {
      NoBytes();
      return 0;
    }
    var bytes := new Byte[|ba|](i requires 0 <= i < |ba| => ba[i]);
    assert bytes[..] == ba;
    BytesReverse(bytes);
    ReversedAt(ba, 0);
    SignedUnsigned(ba);
    if bytes[0] / 0x80 == 1 {
      Invert(bytes);
      FlippedValue(ba);
      x := Rlp.FromBigEndian(bytes[..]) + 1;
      x := -x;
    } else {
      ReversedValue(bytes[..]);
      ReversedTwice(ba);
      x := Rlp.FromBigEndian(bytes[..]);
    }
  }

  lemma NoBytes()
    ensures Signed([]) == 0
  {}

  lemma FlippedValue(b: Bytes)
    ensures Rlp.FromBigEndian(Inverted(Reversed(b))) == Pow256(|b|) - 1 - FromLittleEndian(b)
  {
    hide Reversed, Inverted, FromLittleEndian, Rlp.FromBigEndian, Pow256;
    ReversedValue(Inverted(Reversed(b)));
    InvertReverse(b);
    InvertedValue(b);
  }

  lemma InvertReverse(b: Bytes)
    ensures Reversed(Inverted(Reversed(b))) == Inverted(b)
  {
    hide Reversed, Inverted;
    var r := Inverted(Reversed(b));
    forall i | 0 <= i < |b| ensures Reversed(r)[i] == Inverted(b)[i] {
      ReversedAt(r, i);
      ReversedAt(b, |b| - 1 - i);
    }
  }
}
