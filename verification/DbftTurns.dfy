/** Whose turn it is: the primaries of n views in a row. */
module DbftTurns {
  import opened Words
  import opened NumberTheory
  import opened DbftModel
  import opened DbftSafety

  /** The number whose remainder is the primary. */
  function Turn(height: Uint32, view: Byte): nat {
    if height >= view then height - view else height - view + TWO_32
  }

  lemma SameTurn(height: Uint32, v: Byte, w: Byte, n: nat)
    requires n > 0
    ensures PrimaryOf(height, v, n) == PrimaryOf(height, w, n) <==> Cong(Turn(height, v), Turn(height, w), n)
  {
    CongMod(Turn(height, v), Turn(height, w), n);
  }

  lemma NoSmallMultiple(d: int, n: int)
    requires 0 < d < n
    ensures !Divides(n, d) && !Divides(n, -d)
  {
    if Divides(n, d) { CongReduced(d, 0, n); }
    if Divides(n, -d) {
      CongSym(-d, 0, n);
      CongReduced(d, 0, n);
    }
  }

  /** Two views on one side of the height differ, and across it exactly unless their distance is
      the remainder of 2^32. */
  lemma TurnsMeet(height: Uint32, v: Byte, w: Byte, n: nat)
    requires v < w < v + n
    ensures PrimaryOf(height, v, n) == PrimaryOf(height, w, n) <==> v <= height < w && TWO_32 % n == w - v
  {
    hide PrimaryOf, Divides;
    SameTurn(height, v, w, n);
    if v <= height < w {
      Across(w - v, n);
      assert Turn(height, v) - Turn(height, w) == w - v - TWO_32;
    } else {
      NoSmallMultiple(w - v, n);
      assert Turn(height, v) - Turn(height, w) == w - v;
    }
  }

  lemma Across(d: int, n: int)
    requires 0 < d < n
    ensures Divides(n, d - TWO_32) <==> TWO_32 % n == d
  {
    hide Divides;
    CongMod(d, TWO_32, n);
    CongMod(d, d % n, n);
    CongSame(d, n);
    CongReduced(d, d % n, n);
  }

  /** View 0 is the turn of the height's remainder, and each view up to the height that of the
      bookkeeper before. */
  lemma TurnsGoDown(height: Uint32, v: Byte, n: nat)
    requires n > 0 && v < height && v < 255
    ensures PrimaryOf(height, 0, n) == height % n
    ensures PrimaryOf(height, v, n) == (PrimaryOf(height, v + 1, n) + 1) % n
  {
    hide Cong;
    var t := height as int - v as int - 1;
    CongSame(t, n);
    CongSame(1, n);
    CongSum(t % n, t, n);
    CongMod(t % n + 1, t + 1, n);
  }

  lemma CongSum(a: int, b: int, n: int)
    requires n > 0 && Cong(a, b, n)
    ensures Cong(a + 1, b + 1, n)
  {
    assert (a + 1) - (b + 1) == a - b;
  }

  /** No bookkeeper is primary twice in the views. */
  predicate NoneTwice(height: Uint32, first: nat, n: nat)
    requires 0 < n && first + n <= 0x100
  {
    forall v: Byte, w: Byte :: first <= v < w < first + n ==> PrimaryOf(height, v, n) != PrimaryOf(height, w, n)
  }

  /** That holds if and only if the views lie on one side of the height or n divides 2^32: in
      between the subtraction wraps around. */
  lemma NoneTwiceExact(height: Uint32, first: nat, n: nat)
    requires 0 < n && first + n <= 0x100
    ensures NoneTwice(height, first, n) <==> height < first || first + n - 1 <= height || TWO_32 % n == 0
  {
    hide PrimaryOf;
    forall v: Byte, w: Byte | first <= v < w < first + n
      ensures PrimaryOf(height, v, n) == PrimaryOf(height, w, n) <==> v <= height < w && TWO_32 % n == w - v
    {
      TurnsMeet(height, v, w, n);
    }
    var r: int := TWO_32 % n;
    if first <= height < first + n - 1 && r != 0 {
      var v: Byte := if height - r + 1 >= first then height - r + 1 else first;
      var w: Byte := v + r;
      assert first <= v < w < first + n && v <= height < w;
      assert PrimaryOf(height, v, n) == PrimaryOf(height, w, n);
    }
  }

  /** The primaries of the first k of the views. */
  function Primaries(height: Uint32, first: nat, n: nat, k: nat): (r: set<nat>)
    requires 0 < n && first + n <= 0x100 && k <= n
    ensures r <= Seats(n)
  {
    if k == 0 then {} else Primaries(height, first, n, k - 1) + {PrimaryOf(height, first + k - 1, n)}
  }

  /** The bookkeeper is primary in one of the first k of the views. */
  predicate Takes(height: Uint32, first: nat, n: nat, k: nat, who: nat)
    requires 0 < n && first + n <= 0x100 && k <= n
  {
    exists v: Byte :: first <= v < first + k && PrimaryOf(height, v, n) == who
  }

  lemma {:induction false} PrimaryAmong(height: Uint32, first: nat, n: nat, k: nat, who: nat)
    requires 0 < n && first + n <= 0x100 && k <= n
    ensures who in Primaries(height, first, n, k) <==> Takes(height, first, n, k, who)
    decreases k
  {
    if k > 0 { PrimaryAmong(height, first, n, k - 1, who); }
  }

  lemma {:induction false} PrimariesCount(height: Uint32, first: nat, n: nat, k: nat)
    requires 0 < n && first + n <= 0x100 && k <= n && NoneTwice(height, first, n)
    ensures |Primaries(height, first, n, k)| == k
    decreases k
  {
    if k > 0 {
      PrimariesCount(height, first, n, k - 1);
      PrimaryAmong(height, first, n, k - 1, PrimaryOf(height, first + k - 1, n));
    }
  }

  /** Each bookkeeper is primary in exactly one of the views. */
  predicate EachOnce(height: Uint32, first: nat, n: nat)
    requires 0 < n && first + n <= 0x100
  {
    && NoneTwice(height, first, n)
    && forall who: nat :: who < n ==> Takes(height, first, n, n, who)
  }

  lemma EachPrimaryOnce(height: Uint32, first: nat, n: nat)
    requires 0 < n && first + n <= 0x100
    ensures EachOnce(height, first, n) <==> height < first || first + n - 1 <= height || TWO_32 % n == 0
  {
    hide NoneTwice, Takes, Primaries;
    NoneTwiceExact(height, first, n);
    if NoneTwice(height, first, n) {
      var all := Primaries(height, first, n, n);
      PrimariesCount(height, first, n, n);
      WholeSet(all, Seats(n));
      forall who: nat | who < n ensures Takes(height, first, n, n, who) {
        PrimaryAmong(height, first, n, n, who);
      }
    }
  }

  lemma WholeSet(a: set<nat>, b: set<nat>)
    requires a <= b && |a| == |b|
    ensures a == b
  {
    if a != b {
      var x :| x in b && x !in a;
      SubsetSize(a, b - {x});
    }
  }

  /** At height 1, the first after the genesis block, the first of five bookkeepers is primary in
      views 1 and 2. */
  lemma TurnsRepeat()
    ensures PrimaryOf(1, 1, 5) == 0 && PrimaryOf(1, 2, 5) == 0
  {
    assert TWO_32 % 5 == 1;
    TurnsMeet(1, 1, 2, 5);
  }
}
