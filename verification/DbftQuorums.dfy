/** How large dBFT's quorum is: what the bookkeepers without the faulty ones can reach, what any two
    of its size share, and whether a smaller one would do. */
module DbftQuorums {
  import opened Words
  import opened DbftModel
  import opened DbftSafety

  /** How many bookkeepers of n may be faulty. */
  function MaxFaulty(n: nat): nat
    requires n > 0
  {
    (n - 1) / 3
  }

  /** Without the faulty bookkeepers there is a quorum, and without as many as may be faulty there is
      just one: a larger number could be kept from being reached. */
  lemma QuorumLeft(n: nat, faulty: set<nat>)
    requires n > 0 && faulty <= Seats(n)
    ensures M(n) <= |Seats(n) - faulty| <==> |faulty| <= MaxFaulty(n)
    ensures M(n) == |Seats(n) - faulty| <==> |faulty| == MaxFaulty(n)
  {
    assert |Seats(n) - faulty| == n - |faulty| by { SetMinus(Seats(n), faulty); }
  }

  lemma SetMinus(a: set<nat>, b: set<nat>)
    requires b <= a
    ensures |a - b| == |a| - |b|
  {
    assert a == (a - b) + b;
  }

  // ---------------------------------------------------------------- sizes that always meet

  /** Any two groups of q bookkeepers share one that is not faulty. */
  ghost predicate AlwaysMeet(n: nat, q: nat)
    requires n > 0
  {
    forall a: set<nat>, b: set<nat> :: a <= Seats(n) && b <= Seats(n) && |a| == q && |b| == q ==> |a * b| > MaxFaulty(n)
  }

  /** The q bookkeepers from number k on. */
  function Group(k: nat, q: nat): (r: set<nat>)
    ensures |r| == q && forall i: nat :: i in r <==> k <= i < k + q
  {
    if q == 0 then {} else Group(k, q - 1) + {k + q - 1}
  }

  /** Two groups share at least what does not fit beside each other, and the first and the last q
      share no more. */
  lemma MeetExact(n: nat, q: nat)
    requires n > 0 && q <= n
    ensures AlwaysMeet(n, q) <==> 2 * q > n + MaxFaulty(n)
  {
    if 2 * q > n + MaxFaulty(n) {
      forall a: set<nat>, b: set<nat> | a <= Seats(n) && b <= Seats(n) && |a| == q && |b| == q
        ensures |a * b| > MaxFaulty(n)
      {
        SubsetSize(a + b, Seats(n));
        assert |a| + |b| == |a + b| + |a * b|;
      }
    } else {
      var a, b := Group(0, q), Group(n - q, q);
      assert a * b == if 2 * q <= n then {} else Group(n - q, 2 * q - n);
      assert a <= Seats(n) && b <= Seats(n) && !(|a * b| > MaxFaulty(n));
    }
  }

  /** The quorum always meets. */
  lemma QuorumMeets(n: nat)
    requires n > 0
    ensures 0 < M(n) <= n && AlwaysMeet(n, M(n))
  {
    MeetExact(n, M(n));
  }

  /** It is the least size that does, if and only if 3 does not divide n. */
  lemma QuorumLeastExact(n: nat)
    requires n > 0
    ensures (forall q: nat :: q < M(n) ==> !AlwaysMeet(n, q)) <==> n % 3 != 0
    ensures n % 3 == 0 ==> AlwaysMeet(n, M(n) - 1) && forall q: nat :: q < M(n) - 1 ==> !AlwaysMeet(n, q)
  {
    hide AlwaysMeet;
    forall q: nat | q < M(n) ensures AlwaysMeet(n, q) <==> 2 * q > n + MaxFaulty(n) { MeetExact(n, q); }
    var f := MaxFaulty(n);
    assert n == 3 * f + 1 || n == 3 * f + 2 || n == 3 * f + 3;
    if n == 3 * f + 3 { assert AlwaysMeet(n, M(n) - 1); }
  }

  /** Of three bookkeepers any two already always meet, and the quorum is all three. */
  lemma ThreeNeedTwo()
    ensures M(3) == 3 && AlwaysMeet(3, 2)
  {
    MeetExact(3, 2);
  }
}
