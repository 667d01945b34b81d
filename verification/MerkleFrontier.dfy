/** What CompactMerkleTree keeps for a list of leaves: the roots of its perfect subtrees, one per
    binary digit of the size, and the post-order listing of every finished subtree. */
module MerkleFrontier {
  import opened Words
  import opened MerkleBits
  import opened MerkleSpec

  /** The largest power of two not above n, the size of the first perfect subtree. */
  function First(n: nat): (k: nat)
    requires n >= 1
    ensures 0 < k <= n < 2 * k
  {
    Split(n + 1)
  }

  lemma {:induction false} FirstOfPower2(n: nat)
    requires IsPower2(n)
    ensures First(n) == n
  {
    SplitUnique(n + 1, n);
  }

  lemma {:induction false} FirstBelow(n: nat)
    requires n >= 2 && !IsPower2(n)
    ensures First(n) == Split(n)
  {
    SplitIsPower2(n);
    SplitUnique(n + 1, Split(n));
  }

  lemma {:induction false} FirstIsPower2(n: nat)
    requires n >= 1
    ensures IsPower2(First(n))
  {
    SplitIsPower2(n + 1);
  }

  /** Halving a power of two above one is how its perfect tree splits. */
  lemma {:induction false} SplitOfPower2(n: nat)
    requires IsPower2(n) && n >= 2
    ensures n % 2 == 0 && Split(n) == n / 2 && IsPower2(n / 2)
  {
    SplitUnique(n, n / 2);
  }

  /** Roots of the perfect subtrees, largest first. */
  function Frontier(h: TreeHasher, d: seq<Digest>): seq<Digest> {
    if |d| == 0 then []
    else
      var k := First(|d|);
      [Mth(h, d[..k])] + Frontier(h, d[k..])
  }

  /** Every node of a perfect tree, children before parents. */
  function PostOrder(h: TreeHasher, d: seq<Digest>): (r: seq<Digest>)
    requires IsPower2(|d|)
    ensures |r| == 2 * |d| - 1
    decreases |d|
  {
    if |d| == 1 then d
    else
      SplitOfPower2(|d|);
      var k := |d| / 2;
      PostOrder(h, d[..k]) + PostOrder(h, d[k..]) + [Mth(h, d)]
  }

  lemma {:induction false} PostOrderStep(h: TreeHasher, d: seq<Digest>, k: nat)
    requires IsPower2(|d|) && |d| == 2 * k && k >= 1
    ensures IsPower2(k) && PostOrder(h, d) == PostOrder(h, d[..k]) + PostOrder(h, d[k..]) + [Mth(h, d)]
  {
    hide Mth, Split;
    assert |d| / 2 == k;
  }

  lemma {:induction false} PostOrderLast(h: TreeHasher, d: seq<Digest>)
    requires IsPower2(|d|)
    ensures PostOrder(h, d)[2 * |d| - 2] == Mth(h, d)
  {
  }

  /** The contents of the hash store: the perfect subtrees one after another. */
  function Stored(h: TreeHasher, d: seq<Digest>): seq<Digest> {
    if |d| == 0 then []
    else
      var k := First(|d|);
      FirstIsPower2(|d|);
      PostOrder(h, d[..k]) + Stored(h, d[k..])
  }

  lemma {:induction false} StoredOfPower2(h: TreeHasher, d: seq<Digest>)
    requires IsPower2(|d|)
    ensures Stored(h, d) == PostOrder(h, d) && Frontier(h, d) == [Mth(h, d)]
  {
    FirstOfPower2(|d|);
    assert d[..|d|] == d && d[|d|..] == [];
  }

  /** The source's _hash_fold: hash a list together from its right end. */
  function Fold(h: TreeHasher, hashes: seq<Digest>): Digest
    requires |hashes| > 0
  {
    if |hashes| == 1 then hashes[0] else h.HashChildren(hashes[0], Fold(h, hashes[1..]))
  }

  /** Folding the frontier gives the tree hash. */
  lemma {:induction false} FoldFrontier(h: TreeHasher, d: seq<Digest>)
    requires |d| > 0
    ensures |Frontier(h, d)| > 0 && Fold(h, Frontier(h, d)) == Mth(h, d)
    decreases |d|
  {
    if IsPower2(|d|) {
      StoredOfPower2(h, d);
    } else {
      FirstBelow(|d|);
      var k := First(|d|);
      FoldFrontier(h, d[k..]);
      assert Frontier(h, d)[1..] == Frontier(h, d[k..]);
    }
  }

  lemma {:induction false} FrontierStep(h: TreeHasher, d: seq<Digest>)
    requires |d| > 0
    ensures var k := First(|d|);
            && IsPower2(k)
            && Frontier(h, d) == [Mth(h, d[..k])] + Frontier(h, d[k..])
            && Stored(h, d) == PostOrder(h, d[..k]) + Stored(h, d[k..])
  {
    FirstIsPower2(|d|);
  }

  /** Folding the frontier with one more leaf gives the tree hash of the longer list. */
  lemma {:induction false} FoldFrontierAndLeaf(h: TreeHasher, d: seq<Digest>, x: Digest)
    ensures Fold(h, Frontier(h, d) + [x]) == Mth(h, d + [x])
    decreases |d|
  {
    if |d| == 0 {
      assert [] + [x] == [x];
    } else {
      var k := First(|d|);
      FoldFrontierAndLeaf(h, d[k..], x);
      FoldStep(h, d, x, k);
    }
  }

  lemma {:induction false} FoldStep(h: TreeHasher, d: seq<Digest>, x: Digest, k: nat)
    requires |d| > 0 && k == First(|d|) && Fold(h, Frontier(h, d[k..]) + [x]) == Mth(h, d[k..] + [x])
    ensures Fold(h, Frontier(h, d) + [x]) == Mth(h, d + [x])
  {
    hide Mth, Frontier, Stored, PostOrder, IsPower2, Split;
    FrontierStep(h, d);
    MthStep(h, d + [x], k);
    assert (d + [x])[..k] == d[..k] && (d + [x])[k..] == d[k..] + [x];
    assert (Frontier(h, d) + [x])[1..] == Frontier(h, d[k..]) + [x];
  }

  function Reversed<T>(s: seq<T>): (r: seq<T>)
    ensures |r| == |s| && forall i :: 0 <= i < |s| ==> r[i] == s[|s| - 1 - i]
  {
    seq(|s|, i requires 0 <= i < |s| => s[|s| - 1 - i])
  }

  /** The reversed frontier is the audit path of the leaf appended next. */
  lemma {:induction false} ReversedFrontierIsPath(h: TreeHasher, d: seq<Digest>, x: Digest)
    ensures Reversed(Frontier(h, d)) == Path(h, |d|, d + [x])
    decreases |d|
  {
    if |d| == 0 {
      assert d + [x] == [x];
    } else {
      var k := First(|d|);
      ReversedFrontierIsPath(h, d[k..], x);
      ReversedStep(h, d, x, k);
    }
  }

  lemma {:induction false} ReversedStep(h: TreeHasher, d: seq<Digest>, x: Digest, k: nat)
    requires |d| > 0 && k == First(|d|) && Reversed(Frontier(h, d[k..])) == Path(h, |d| - k, d[k..] + [x])
    ensures Reversed(Frontier(h, d)) == Path(h, |d|, d + [x])
  {
    hide Mth, Path, Frontier, Stored, PostOrder, IsPower2, Split, Reversed;
    FrontierStep(h, d);
    var e := d + [x];
    PathStep(h, |d|, e, k);
    assert e[..k] == d[..k] && e[k..] == d[k..] + [x];
    ReversedCons(Mth(h, d[..k]), Frontier(h, d[k..]));
  }

  lemma {:induction false} ReversedCons<T>(x: T, s: seq<T>)
    ensures Reversed([x] + s) == Reversed(s) + [x]
  {
  }

  // ---------------------------------------------------------------- the append counter

  /** The binary-counter carry of AppendHash: while the size is odd the new node is hashed with the
      last frontier entry. Returns the new frontier and the nodes finished on the way. */
  function Carry(h: TreeHasher, frontier: seq<Digest>, size: nat, leaf: Digest): (r: (seq<Digest>, seq<Digest>))
    ensures |r.1| > 0 && r.1[0] == leaf
    decreases size
  {
    if size % 2 == 0 || |frontier| == 0 then (frontier + [leaf], [leaf])
    else
      var n := |frontier| - 1;
      var (f, s) := Carry(h, frontier[..n], size / 2, h.HashChildren(frontier[n], leaf));
      (f, [leaf] + s)
  }

  /** A digit above the carry: it is untouched when some lower digit stops the carry, and is
      hashed in last when every lower digit is one. */
  lemma {:induction false} CarryBelow(h: TreeHasher, top: Digest, frontier: seq<Digest>, k: nat, n: nat, leaf: Digest)
    requires IsPower2(k) && n < k && |frontier| == CountBit(n)
    ensures n < k - 1 ==>
              Carry(h, [top] + frontier, k + n, leaf) ==
              ([top] + Carry(h, frontier, n, leaf).0, Carry(h, frontier, n, leaf).1)
    ensures n == k - 1 ==>
              var (f, s) := Carry(h, frontier, n, leaf);
              && |f| == 1
              && Carry(h, [top] + frontier, k + n, leaf) ==
                 ([h.HashChildren(top, f[0])], s + [h.HashChildren(top, f[0])])
    decreases k
  {
    hide Carry, CountBit, IsPower2, TreeHasher.HashChildren;
    if k == 1 {
      NoDigits(frontier);
      CarryOnTop(h, top, leaf);
    } else {
      PowerBeyond1(k);
      HalfDigits(k, n, k / 2, n / 2);
      if n == 2 * (n / 2) {
        CarryStops(h, top, frontier, k, n, leaf);
      } else {
        var last := |frontier| - 1;
        CarryBelow(h, top, frontier[..last], k / 2, n / 2, h.HashChildren(frontier[last], leaf));
        CarryBelowStep(h, top, frontier, k / 2, n / 2, leaf);
      }
    }
  }

  lemma {:induction false} NoDigits(frontier: seq<Digest>)
    requires |frontier| == CountBit(0)
    ensures frontier == []
  {
  }

  lemma {:induction false} CarryOnTop(h: TreeHasher, top: Digest, leaf: Digest)
    ensures Carry(h, [], 0, leaf) == ([leaf], [leaf])
    ensures var up := h.HashChildren(top, leaf);
            Carry(h, [top] + [], 1, leaf) == ([up], [leaf] + [up])
  {
    var up := h.HashChildren(top, leaf);
    assert [top] + [] == [top] && [top][..0] == [];
    assert [] + [leaf] == [leaf] && [] + [up] == [up];
  }

  lemma {:induction false} PowerBeyond1(k: nat)
    requires IsPower2(k) && k != 1
    ensures k > 1
  {
  }

  /** A power of two above one and a smaller number, halved. */
  lemma {:induction false} HalfDigits(k: nat, n: nat, p: nat, q: nat)
    requires IsPower2(k) && k > 1 && n < k && p == k / 2 && q == n / 2
    ensures k == 2 * p && IsPower2(p) && q < p && (n == 2 * q || n == 2 * q + 1)
    ensures CountBit(n) == n - 2 * q + CountBit(q)
  {
  }

  lemma {:induction false} CarryStops(h: TreeHasher, top: Digest, frontier: seq<Digest>, k: nat, n: nat, leaf: Digest)
    requires k % 2 == 0 && n % 2 == 0 && n < k
    ensures n < k - 1
    ensures Carry(h, [top] + frontier, k + n, leaf) ==
            ([top] + Carry(h, frontier, n, leaf).0, Carry(h, frontier, n, leaf).1)
  {
    assert (k + n) % 2 == 0;
    Assoc([top], frontier, [leaf]);
  }

  lemma {:induction false} CarryBelowStep(h: TreeHasher, top: Digest, frontier: seq<Digest>, k: nat, n: nat,
                                          leaf: Digest)
    requires frontier != [] && n < k
    requires var up := h.HashChildren(frontier[|frontier| - 1], leaf);
             var (f, s) := Carry(h, frontier[..|frontier| - 1], n, up);
             var r := Carry(h, [top] + frontier[..|frontier| - 1], k + n, up);
             if n < k - 1 then r == ([top] + f, s)
             else |f| == 1 && r == ([h.HashChildren(top, f[0])], s + [h.HashChildren(top, f[0])])
    ensures var (f, s) := Carry(h, frontier, 2 * n + 1, leaf);
            var r := Carry(h, [top] + frontier, 2 * k + (2 * n + 1), leaf);
            if n < k - 1 then r == ([top] + f, s)
            else |f| == 1 && r == ([h.HashChildren(top, f[0])], s + [h.HashChildren(top, f[0])])
  {
    hide Carry, TreeHasher.HashChildren;
    var last := |frontier| - 1;
    var up := h.HashChildren(frontier[last], leaf);
    LastUnder(top, frontier);
    CarryOdd(h, frontier, n, leaf);
    CarryOdd(h, [top] + frontier, k + n, leaf);
    assert 2 * (k + n) + 1 == 2 * k + (2 * n + 1);
    var (f, s) := Carry(h, frontier[..last], n, up);
    if n == k - 1 { Assoc([leaf], s, [h.HashChildren(top, f[0])]); }
  }

  lemma {:induction false} LastUnder(top: Digest, frontier: seq<Digest>)
    requires frontier != []
    ensures var all, last := [top] + frontier, |frontier| - 1;
            |all| - 1 == last + 1 && all[..last + 1] == [top] + frontier[..last] && all[last + 1] == frontier[last]
  {
  }

  lemma {:induction false} CarryOdd(h: TreeHasher, frontier: seq<Digest>, n: nat, leaf: Digest)
    requires frontier != []
    ensures var last := |frontier| - 1;
            var (f, s) := Carry(h, frontier[..last], n, h.HashChildren(frontier[last], leaf));
            Carry(h, frontier, 2 * n + 1, leaf) == (f, [leaf] + s)
  {
    assert (2 * n + 1) / 2 == n && (2 * n + 1) % 2 == 1;
  }

  lemma {:induction false} CountBitTop(k: nat, n: nat)
    requires IsPower2(k) && n < k
    ensures CountBit(k + n) == 1 + CountBit(n)
  {
    if k == 1 {
      assert CountBit(1) == 1;
    } else {
      CountBitTop(k / 2, n / 2);
      assert (k + n) / 2 == k / 2 + n / 2 && (k + n) % 2 == n % 2;
    }
  }

  lemma {:induction false} FrontierLength(h: TreeHasher, d: seq<Digest>)
    ensures |Frontier(h, d)| == CountBit(|d|)
    decreases |d|
  {
    if |d| > 0 {
      var k := First(|d|);
      FirstIsPower2(|d|);
      FrontierLength(h, d[k..]);
      CountBitTop(k, |d| - k);
    }
  }

  /** One append: the carry turns the frontier and the store of d into those of d + [x]. */
  lemma {:induction false} AppendLeaf(h: TreeHasher, d: seq<Digest>, x: Digest)
    ensures Frontier(h, d + [x]) == Carry(h, Frontier(h, d), |d|, x).0
    ensures Stored(h, d + [x]) == Stored(h, d) + Carry(h, Frontier(h, d), |d|, x).1
    decreases |d|
  {
    if |d| == 0 {
      StoredOfPower2(h, [x]);
      assert d + [x] == [x];
    } else {
      var k := First(|d|);
      AppendLeaf(h, d[k..], x);
      AppendLeafStep(h, d, x, k);
    }
  }

  lemma {:induction false} AppendLeafStep(h: TreeHasher, d: seq<Digest>, x: Digest, k: nat)
    requires |d| > 0 && k == First(|d|)
    requires Frontier(h, d[k..] + [x]) == Carry(h, Frontier(h, d[k..]), |d| - k, x).0
    requires Stored(h, d[k..] + [x]) == Stored(h, d[k..]) + Carry(h, Frontier(h, d[k..]), |d| - k, x).1
    ensures Frontier(h, d + [x]) == Carry(h, Frontier(h, d), |d|, x).0
    ensures Stored(h, d + [x]) == Stored(h, d) + Carry(h, Frontier(h, d), |d|, x).1
  {
    hide Frontier, Stored, PostOrder, Carry, CountBit, IsPower2, Mth, First;
    var rest, top := d[k..], Mth(h, d[..k]);
    FrontierStep(h, d);
    FrontierLength(h, rest);
    CarryBelow(h, top, Frontier(h, rest), k, |rest|, x);
    var (f, s) := Carry(h, Frontier(h, rest), |rest|, x);
    Assoc(PostOrder(h, d[..k]), Stored(h, rest), s);
    if |rest| < k - 1 {
      AppendBelow(h, d, x, k);
    } else {
      AppendMerges(h, d, x, k);
      Assoc(Stored(h, d), s, [h.HashChildren(top, f[0])]);
    }
  }

  /** The first perfect subtree of the longer list is the old one. */
  lemma {:induction false} AppendBelow(h: TreeHasher, d: seq<Digest>, x: Digest, k: nat)
    requires |d| > 0 && k == First(|d|) && |d| < 2 * k - 1
    ensures Frontier(h, d + [x]) == [Mth(h, d[..k])] + Frontier(h, d[k..] + [x])
    ensures IsPower2(k) && Stored(h, d + [x]) == PostOrder(h, d[..k]) + Stored(h, d[k..] + [x])
  {
    hide Mth, Frontier, Stored, PostOrder, IsPower2, Split;
    FirstIsPower2(|d|);
    SplitUnique(|d| + 2, k);
    var e := d + [x];
    FrontierStep(h, e);
    assert e[..k] == d[..k] && e[k..] == d[k..] + [x];
  }

  lemma {:induction false} Doubled(k: nat)
    requires IsPower2(k)
    ensures IsPower2(2 * k) && Split(2 * k) == k
  {
    assert 2 * k / 2 == k;
    SplitOfPower2(2 * k);
  }

  /** The longer list is one perfect tree. */
  lemma {:induction false} AppendMerges(h: TreeHasher, d: seq<Digest>, x: Digest, k: nat)
    requires |d| > 0 && k == First(|d|) && |d| == 2 * k - 1
    ensures var e, root := d[k..] + [x], Mth(h, d + [x]);
            && IsPower2(k)
            && Frontier(h, d + [x]) == [root] && Frontier(h, e) == [Mth(h, e)]
            && root == h.HashChildren(Mth(h, d[..k]), Mth(h, e))
            && Stored(h, d + [x]) == PostOrder(h, d[..k]) + Stored(h, e) + [root]
  {
    hide Mth, Frontier, Stored, IsPower2, Split, PostOrder;
    FirstIsPower2(|d|);
    Doubled(k);
    var all, e := d + [x], d[k..] + [x];
    assert all[..k] == d[..k] && all[k..] == e;
    StoredOfPower2(h, all);
    StoredOfPower2(h, e);
    MthStep(h, all, k);
    PostOrderStep(h, all, k);
  }

  // ---------------------------------------------------------------- positions in the store

  predicate At<T(==)>(s: seq<T>, offset: nat, chunk: seq<T>) {
    offset + |chunk| <= |s| && s[offset..offset + |chunk|] == chunk
  }

  lemma {:induction false} AtParts<T>(s: seq<T>, offset: nat, chunk: seq<T>, a: seq<T>, b: seq<T>)
    requires At(s, offset, chunk) && a + b <= chunk
    ensures At(s, offset, a) && At(s, offset + |a|, b)
  {
    var both := a + b;
    assert forall i :: 0 <= i < |both| ==> s[offset + i] == both[i] by {
      forall i | 0 <= i < |both| ensures s[offset + i] == both[i] {
        assert s[offset..offset + |chunk|][i] == chunk[i];
      }
    }
    assert forall i :: 0 <= i < |a| ==> s[offset + i] == a[i] by {
      assert forall i :: 0 <= i < |a| ==> both[i] == a[i];
    }
    assert forall i :: 0 <= i < |b| ==> s[offset + |a| + i] == b[i] by {
      forall i | 0 <= i < |b| ensures s[offset + |a| + i] == b[i] { assert both[|a| + i] == b[i]; }
    }
  }

  /** The store keeps the listing of d from the given offset on. */
  predicate Holds(h: TreeHasher, store: seq<Digest>, offset: nat, d: seq<Digest>) {
    At(store, offset, Stored(h, d))
  }

  /** Sizes of the post-order listings of the perfect subtrees, largest first. */
  function Sizes(n: nat): seq<nat> {
    if n == 0 then [] else [2 * First(n) - 1] + Sizes(n - First(n))
  }

  /** 1-based positions of the perfect subtree roots in a listing that starts at base. */
  function Positions(n: nat, base: nat): (r: seq<nat>)
    ensures forall i :: 0 <= i < |r| ==> r[i] > base
    decreases n
  {
    if n == 0 then []
    else
      var next := base + 2 * First(n) - 1;
      [next] + Positions(n - First(n), next)
  }

  function Sum(s: seq<nat>): nat {
    if |s| == 0 then 0 else s[0] + Sum(s[1..])
  }

  lemma {:induction false} StoredLength(h: TreeHasher, d: seq<Digest>)
    ensures |Stored(h, d)| == Sum(Sizes(|d|)) == 2 * |d| - CountBit(|d|)
    decreases |d|
  {
    if |d| > 0 {
      StoredLength(h, d[First(|d|)..]);
      StoredLengthStep(h, d, First(|d|));
    }
  }

  lemma {:induction false} StoredLengthStep(h: TreeHasher, d: seq<Digest>, k: nat)
    requires |d| > 0 && k == First(|d|)
    requires |Stored(h, d[k..])| == Sum(Sizes(|d| - k)) == 2 * (|d| - k) - CountBit(|d| - k)
    ensures |Stored(h, d)| == Sum(Sizes(|d|)) == 2 * |d| - CountBit(|d|)
  {
    hide Stored, PostOrder, Frontier, CountBit, First, IsPower2;
    FrontierStep(h, d);
    CountBitTop(k, |d| - k);
    assert Sizes(|d|)[1..] == Sizes(|d| - k);
  }

  /** Positions are the running totals of the sizes. */
  lemma {:induction false} PositionsAt(n: nat, base: nat)
    ensures |Positions(n, base)| == |Sizes(n)|
    ensures forall i :: 0 <= i < |Sizes(n)| ==>
              Positions(n, base)[i] == (if i == 0 then base else Positions(n, base)[i - 1]) + Sizes(n)[i]
    decreases n
  {
    hide First, Positions, Sizes;
    if n > 0 {
      var k, p, s := First(n), Positions(n, base), Sizes(n);
      var p', s' := Positions(n - k, base + 2 * k - 1), Sizes(n - k);
      PositionsAt(n - k, base + 2 * k - 1);
      PositionsStep(n, base);
      forall i | 1 <= i < |s| ensures p[i] == p[i - 1] + s[i] {
        assert p[i] == p'[i - 1] && s[i] == s'[i - 1];
        assert p[i - 1] == if i == 1 then base + 2 * k - 1 else p'[i - 2];
      }
    } else {
      NoPositions(base);
    }
  }

  lemma {:induction false} NoPositions(base: nat)
    ensures Positions(0, base) == [] && Sizes(0) == []
  {
  }

  lemma {:induction false} PositionsStep(n: nat, base: nat)
    requires n > 0
    ensures Positions(n, base) == [base + 2 * First(n) - 1] + Positions(n - First(n), base + 2 * First(n) - 1)
    ensures Sizes(n) == [2 * First(n) - 1] + Sizes(n - First(n))
  {
  }

  lemma {:induction false} SizesLength(n: nat)
    ensures |Sizes(n)| == CountBit(n)
  {
    if n > 0 {
      var k := First(n);
      FirstIsPower2(n);
      SizesLength(n - k);
      CountBitTop(k, n - k);
    }
  }

  /** Reading the positions yields the frontier. */
  lemma {:induction false} ReadFrontier(h: TreeHasher, store: seq<Digest>, base: nat, d: seq<Digest>)
    requires Holds(h, store, base, d)
    ensures var pos := Positions(|d|, base);
            && |pos| == |Frontier(h, d)|
            && forall i :: 0 <= i < |pos| ==> pos[i] <= |store| && store[pos[i] - 1] == Frontier(h, d)[i]
    decreases |d|
  {
    hide Stored, PostOrder, Holds, At, First, IsPower2, Mth;
    if |d| > 0 {
      var k := First(|d|);
      FrontierStep(h, d);
      HoldsParts(h, store, base, d, k);
      ReadFrontier(h, store, base + 2 * k - 1, d[k..]);
      ReadFrontierStep(h, store, base, d, k);
    }
  }

  lemma {:induction false} ReadFrontierStep(h: TreeHasher, store: seq<Digest>, base: nat, d: seq<Digest>, k: nat)
    requires |d| > 0 && k == First(|d|)
    requires base + 2 * k - 1 <= |store| && store[base + 2 * k - 2] == Mth(h, d[..k])
    requires Frontier(h, d) == [Mth(h, d[..k])] + Frontier(h, d[k..])
    requires var pos := Positions(|d| - k, base + 2 * k - 1);
             && |pos| == |Frontier(h, d[k..])|
             && forall i :: 0 <= i < |pos| ==> pos[i] <= |store| && store[pos[i] - 1] == Frontier(h, d[k..])[i]
    ensures var pos := Positions(|d|, base);
            && |pos| == |Frontier(h, d)|
            && forall i :: 0 <= i < |pos| ==> pos[i] <= |store| && store[pos[i] - 1] == Frontier(h, d)[i]
  {
    hide Frontier, First, Mth;
  }

  /** A listing that is a perfect tree followed by the listing of the rest, read from an offset. */
  lemma {:induction false} HoldsParts(h: TreeHasher, store: seq<Digest>, base: nat, d: seq<Digest>, k: nat)
    requires Holds(h, store, base, d)
    requires k <= |d| && IsPower2(k) && PostOrder(h, d[..k]) + Stored(h, d[k..]) <= Stored(h, d)
    ensures Holds(h, store, base, d[..k]) && Holds(h, store, base + 2 * k - 1, d[k..])
    ensures base + 2 * k - 1 <= |store| && store[base + 2 * k - 2] == Mth(h, d[..k])
  {
    hide PostOrder, Stored, IsPower2, Mth;
    var left := PostOrder(h, d[..k]);
    StoredOfPower2(h, d[..k]);
    PostOrderLast(h, d[..k]);
    AtParts(store, base, Stored(h, d), left, Stored(h, d[k..]));
    assert store[base + 2 * k - 2] == left[2 * k - 2];
  }

  /** The listing of a tree starts with its left subtree, followed by its right subtree. */
  lemma {:induction false} StoredSplit(h: TreeHasher, d: seq<Digest>)
    requires |d| >= 2
    ensures var k := Split(|d|);
            IsPower2(k) && PostOrder(h, d[..k]) + Stored(h, d[k..]) <= Stored(h, d)
  {
    hide Stored, IsPower2, Split, PostOrder, Mth, Frontier, First;
    var k := Split(|d|);
    SplitIsPower2(|d|);
    if IsPower2(|d|) {
      SplitOfPower2(|d|);
      StoredOfPower2(h, d);
      StoredOfPower2(h, d[k..]);
      PostOrderStep(h, d, k);
    } else {
      FirstBelow(|d|);
      FrontierStep(h, d);
    }
  }

  /** The store only grows: the listing of a prefix is a prefix of the listing. */
  lemma {:induction false} StoredPrefix(h: TreeHasher, d: seq<Digest>, n: nat)
    requires n <= |d|
    ensures Stored(h, d[..n]) <= Stored(h, d)
    decreases |d|
  {
    if n == |d| {
      assert d[..n] == d;
    } else {
      var last := |d| - 1;
      var e := d[..last];
      StoredPrefix(h, e, n);
      assert e[..n] == d[..n] && d == e + [d[last]];
      AppendLeaf(h, e, d[last]);
    }
  }
}
