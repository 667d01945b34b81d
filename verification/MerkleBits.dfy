/** merkle/util.go: bit counting on 32-bit words, with `&` defined digit by digit. */
module MerkleBits {
  import opened Words

  function Pow2(n: nat): (p: nat)
    ensures p > 0
  {
    if n == 0 then 1 else 2 * Pow2(n - 1)
  }

  /** Bitwise and of two naturals. */
  function BitAnd(a: nat, b: nat): nat
    decreases a
  {
    if a == 0 then 0 else 2 * BitAnd(a / 2, b / 2) + (if a % 2 == 1 && b % 2 == 1 then 1 else 0)
  }

  /** The number of one digits. */
  function CountBit(n: nat): nat {
    if n == 0 then 0 else n % 2 + CountBit(n / 2)
  }

  /** The 1-based position of the highest one digit, 0 for 0. */
  function BitLen(n: nat): nat {
    if n == 0 then 0 else 1 + BitLen(n / 2)
  }

  /** The 1-based position of the lowest one digit, 0 for 0. */
  function LowBit(n: nat): nat {
    if n == 0 then 0 else if n % 2 == 1 then 1 else 1 + LowBit(n / 2)
  }

  lemma {:induction false} BitAndSelf(n: nat)
    ensures BitAnd(n, n) == n
  {
    if n > 0 { BitAndSelf(n / 2); }
  }

  /** n & (n - 1) drops the lowest one digit. */
  lemma {:induction false} DropLowestOne(n: nat)
    requires n > 0
    ensures BitAnd(n, n - 1) < n
    ensures CountBit(BitAnd(n, n - 1)) == CountBit(n) - 1
  {
    if n % 2 == 1 {
      BitAndSelf(n / 2);
      assert (n - 1) / 2 == n / 2;
      assert BitAnd(n, n - 1) == n - 1;
    } else {
      DropLowestOne(n / 2);
      assert (n - 1) / 2 == n / 2 - 1;
      assert BitAnd(n, n - 1) == 2 * BitAnd(n / 2, n / 2 - 1);
    }
  }

  /** A number and its complement share no digit. */
  lemma {:induction false} BitAndComplement(n: nat, w: nat)
    requires n < Pow2(w)
    ensures BitAnd(n, Pow2(w) - 1 - n) == 0
  {
    if n > 0 {
      BitAndComplement(n / 2, w - 1);
      assert (Pow2(w) - 1 - n) / 2 == Pow2(w - 1) - 1 - n / 2;
    }
  }

  /** n & -n keeps the lowest one digit alone. */
  lemma {:induction false} KeepLowestOne(n: nat, w: nat)
    requires 0 < n < Pow2(w)
    ensures BitLen(BitAnd(n, Pow2(w) - n)) == LowBit(n)
    decreases n
  {
    KeepLowestDigit(n / 2, n % 2, w - 1);
  }

  /** The same with the last digit taken apart. */
  lemma {:induction false} KeepLowestDigit(q: nat, r: nat, w: nat)
    requires r < 2 && 0 < 2 * q + r < 2 * Pow2(w)
    ensures BitLen(BitAnd(2 * q + r, 2 * Pow2(w) - (2 * q + r))) == LowBit(2 * q + r)
    decreases 2 * q + r, 0
  {
    hide BitAnd, Pow2, BitLen, LowBit;
    var p := Pow2(w);
    if r == 1 {
      BitAndComplement(q, w);
      BitAndDigits(q, 1, p - 1 - q, 1);
      assert 2 * p - (2 * q + 1) == 2 * (p - 1 - q) + 1;
      LowDigits(q, 0);
    } else {
      KeepLowestOne(q, w);
      BitAndPositive(q, p - q);
      BitAndDigits(q, 0, p - q, 0);
      LowDigits(q, BitAnd(q, p - q));
    }
  }

  lemma {:induction false} BitAndDigits(a: nat, r: nat, b: nat, s: nat)
    requires r < 2 && s < 2
    ensures BitAnd(2 * a + r, 2 * b + s) == 2 * BitAnd(a, b) + r * s
  {
    assert (2 * a + r) / 2 == a && (2 * b + s) / 2 == b;
  }

  lemma {:induction false} LowDigits(q: nat, b: nat)
    ensures LowBit(2 * q + 1) == 1 && (q > 0 ==> LowBit(2 * q) == 1 + LowBit(q))
    ensures BitLen(1) == 1 && (b > 0 ==> BitLen(2 * b) == 1 + BitLen(b))
  {
    assert 2 * q / 2 == q && 2 * b / 2 == b;
  }

  /** Zero has bit length zero only. */
  lemma {:induction false} BitAndPositive(n: nat, m: nat)
    requires n > 0 && BitLen(BitAnd(n, m)) == LowBit(n)
    ensures BitAnd(n, m) > 0
  {
  }

  method CountBits(num: Uint32) returns (count: nat)
    ensures count == CountBit(num)
  {
    var n: Uint32 := num;
    count := 0;
    while n != 0
      invariant count + CountBit(n) == CountBit(num)
      decreases n
    {
      DropLowestOne(n);
      n := BitAnd(n, n - 1);
      count := count + 1;
    }
  }

  lemma {:induction false} OneDigit(n: nat)
    ensures CountBit(n) == 1 <==> exists k: nat :: n == Pow2(k)
  {
    if CountBit(n) == 1 { var _ := OnlyDigit(n); }
    if k: nat :| n == Pow2(k) { PowerDigit(k); }
  }

  lemma {:induction false} OnlyDigit(n: nat) returns (k: nat)
    requires CountBit(n) == 1
    ensures n == Pow2(k)
  {
    if n % 2 == 1 {
      NoDigit(n / 2);
      return 0;
    }
    k := OnlyDigit(n / 2);
    k := k + 1;
  }

  lemma {:induction false} NoDigit(n: nat)
    requires CountBit(n) == 0
    ensures n == 0
  {
    if n > 0 { NoDigit(n / 2); }
  }

  lemma {:induction false} PowerDigit(k: nat)
    ensures CountBit(Pow2(k)) == 1
  {
    if k == 0 {
      assert CountBit(1) == 1;
    } else {
      PowerDigit(k - 1);
      assert Pow2(k) / 2 == Pow2(k - 1);
    }
  }

  method IsPowerOf2(num: Uint32) returns (b: bool)
    ensures b <==> exists k: nat :: num == Pow2(k)
  {
    var c := CountBits(num);
    OneDigit(num);
    b := c == 1;
  }

  method HighestBit(num: Uint32) returns (hiBit: nat)
    ensures hiBit == BitLen(num)
  {
    var n: Uint32 := num;
    hiBit := 0;
    while n != 0
      invariant hiBit + BitLen(n) == BitLen(num)
    {
      n := n / 2;
      hiBit := hiBit + 1;
    }
  }

  method LowestBit(num: Uint32) returns (loBit: nat)
    ensures loBit == LowBit(num)
  {
    var neg: Uint32 := if num == 0 then 0 else TWO_32 - num;
    if num != 0 {
      assert Pow2(32) == TWO_32 by { Pow2Of32(); }
      KeepLowestOne(num, 32);
    }
    BitAndBound(num, neg);
    loBit := HighestBit(BitAnd(num, neg));
  }

  lemma {:induction false} BitAndBound(a: nat, b: nat)
    ensures BitAnd(a, b) <= a
  {
    if a > 0 { BitAndBound(a / 2, b / 2); }
  }

  lemma {:induction false} Pow2Of32()
    ensures Pow2(32) == TWO_32 && Pow2(31) == TWO_31
  {
    assert Pow2(8) == 0x100;
    assert Pow2(16) == 0x1_0000;
    assert Pow2(24) == 0x100_0000;
  }

  /** Appending one to a run of ones: the carry stops at the lowest one of the successor. */
  lemma {:induction false} LowBitSucc(n: nat)
    ensures LowBit(n + 1) == if n % 2 == 0 then 1 else 1 + LowBit(n / 2 + 1)
  {
    if n % 2 == 1 {
      var q := n / 2;
      assert n + 1 == 2 * (q + 1);
      assert (n + 1) % 2 == 0 && (n + 1) / 2 == q + 1;
    }
  }
}
