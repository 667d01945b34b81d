/** The simple side of the Merkle log: sections 2.1, 2.1.1 and 2.1.2 of RFC 6962 written as
    recursive definitions, the pairing of one tree level into the next, and the lemmas that
    carry roots, audit paths and consistency proofs from one level to the next. */
module MerkleSpec {
  import opened Words

  /** SHA-256 stays an arbitrary function; the one-byte prefixes are the source's. */
  datatype TreeHasher = TreeHasher(sha: Bytes -> Digest) {
    function HashEmpty(): Digest { sha([]) }
    function LeafInput(data: Bytes): Bytes { [0] + data }
    function HashLeaf(data: Bytes): Digest { sha(LeafInput(data)) }
    function ChildrenInput(left: Digest, right: Digest): Bytes { [1] + left + right }
    function HashChildren(left: Digest, right: Digest): Digest { sha(ChildrenInput(left, right)) }
  }

  lemma {:induction false} ChildrenInputInjective(h: TreeHasher, a: Digest, b: Digest, c: Digest, d: Digest)
    requires h.ChildrenInput(a, b) == h.ChildrenInput(c, d)
    ensures a == c && b == d
  {
    var x, y := h.ChildrenInput(a, b), h.ChildrenInput(c, d);
    assert a == x[1..33] && b == x[33..];
    assert c == y[1..33] && d == y[33..];
  }

  /** The bytes hashed for two children: a one, the left digest, the right digest. */
  predicate NodeBytes(b: Bytes, left: Digest, right: Digest) {
    |b| == 65 && b[0] == 1 && b[1..33] == left && b[33..65] == right
  }

  /** The bytes hashed for a leaf: a zero and the data. */
  predicate LeafBytes(b: Bytes, data: Bytes) {
    |b| == 1 + |data| && b[0] == 0 && b[1..] == data
  }

  lemma {:induction false} HashLayout(h: TreeHasher, b: Bytes, left: Digest, right: Digest, data: Bytes)
    ensures b == h.ChildrenInput(left, right) <==> NodeBytes(b, left, right)
    ensures b == h.LeafInput(data) <==> LeafBytes(b, data)
    ensures NodeBytes(b, left, right) ==> h.HashChildren(left, right) == h.sha(b)
    ensures LeafBytes(b, data) ==> h.HashLeaf(data) == h.sha(b)
    ensures h.HashEmpty() == h.sha([])
  {
    if NodeBytes(b, left, right) { assert b == b[..1] + b[1..33] + b[33..65]; }
    if LeafBytes(b, data) { assert b == b[..1] + b[1..]; }
  }

  // ---------------------------------------------------------------- powers of two

  /** The largest power of two strictly below n. */
  function Split(n: nat): (k: nat)
    requires n >= 2
    ensures 0 < k < n <= 2 * k
  {
    if n == 2 then 1 else 2 * Split((n + 1) / 2)
  }

  predicate IsPower2(n: nat) {
    n == 1 || (n > 1 && n % 2 == 0 && IsPower2(n / 2))
  }

  lemma {:induction false} SplitIsPower2(n: nat)
    requires n >= 2
    ensures IsPower2(Split(n))
  {
    if n > 2 {
      SplitIsPower2((n + 1) / 2);
      assert 2 * Split((n + 1) / 2) / 2 == Split((n + 1) / 2);
    }
  }

  /** Split is the only power of two in its range. */
  lemma {:induction false} SplitUnique(n: nat, k: nat)
    requires n >= 2 && IsPower2(k) && k < n <= 2 * k
    ensures Split(n) == k
  {
    if n > 2 {
      SplitUnique((n + 1) / 2, k / 2);
    }
  }

  // ---------------------------------------------------------------- RFC 6962 definitions

  /** Section 2.1: the Merkle tree hash of a list of leaf hashes. */
  function Mth(h: TreeHasher, d: seq<Digest>): Digest {
    if |d| == 0 then h.HashEmpty()
    else if |d| == 1 then d[0]
    else
      var k := Split(|d|);
      h.HashChildren(Mth(h, d[..k]), Mth(h, d[k..]))
  }

  /** The root of a list, said by the bytes that are hashed: of nothing the hash of no bytes, of one
      leaf hash itself, and else the hash of a one byte with the roots of the two parts, where the
      left part is the largest power of two that leaves something on the right. */
  ghost predicate RootedIn(h: TreeHasher, d: seq<Digest>, root: Digest)
    decreases |d|
  {
    if |d| == 0 then root == h.sha([])
    else if |d| == 1 then root == d[0]
    else
      exists k: nat, left: Digest, right: Digest, b: Bytes ::
        && IsPower2(k) && k < |d| <= 2 * k && NodeBytes(b, left, right) && root == h.sha(b)
        && RootedIn(h, d[..k], left) && RootedIn(h, d[k..], right)
  }

  /** The recursive tree hash is that root and no other. */
  lemma {:induction false} MthRoot(h: TreeHasher, d: seq<Digest>, root: Digest)
    ensures RootedIn(h, d, root) <==> root == Mth(h, d)
    decreases |d|
  {
    hide TreeHasher.ChildrenInput, TreeHasher.HashChildren, NodeBytes;
    HashLayout(h, [], EMPTY_HASH, EMPTY_HASH, []);
    if |d| >= 2 {
      var k := Split(|d|);
      SplitIsPower2(|d|);
      if root == Mth(h, d) {
        var left, right := Mth(h, d[..k]), Mth(h, d[k..]);
        MthRoot(h, d[..k], left);
        MthRoot(h, d[k..], right);
        HashLayout(h, h.ChildrenInput(left, right), left, right, []);
        assert NodeBytes(h.ChildrenInput(left, right), left, right);
      }
      if RootedIn(h, d, root) {
        var j: nat, left, right, b :|
          && IsPower2(j) && j < |d| <= 2 * j && NodeBytes(b, left, right) && root == h.sha(b)
          && RootedIn(h, d[..j], left) && RootedIn(h, d[j..], right);
        SplitUnique(|d|, j);
        MthRoot(h, d[..k], left);
        MthRoot(h, d[k..], right);
        HashLayout(h, b, left, right, []);
      }
    }
  }

  /** Two leaves: the root is the hash of 01 a b. */
  lemma {:induction false} PairRoot(h: TreeHasher, a: Digest, b: Digest, bytes: Bytes)
    requires |bytes| == 65 && bytes[0] == 1 && bytes[1..33] == a && bytes[33..65] == b
    ensures Mth(h, [a, b]) == h.sha(bytes)
  {
    HashLayout(h, bytes, a, b, []);
    assert [a, b][..1] == [a] && [a, b][1..] == [b];
  }

  /** Section 2.1.1: the audit path of leaf m. */
  function Path(h: TreeHasher, m: nat, d: seq<Digest>): seq<Digest>
    requires m < |d|
    decreases |d|
  {
    if |d| == 1 then []
    else
      var k := Split(|d|);
      if m < k then Path(h, m, d[..k]) + [Mth(h, d[k..])]
      else Path(h, m - k, d[k..]) + [Mth(h, d[..k])]
  }

  /** Section 2.1.2: SUBPROOF(m, D[n], b). */
  function SubProof(h: TreeHasher, m: nat, d: seq<Digest>, b: bool): seq<Digest>
    requires 0 < m <= |d|
    decreases |d|
  {
    if m == |d| then (if b then [] else [Mth(h, d)])
    else
      var k := Split(|d|);
      if m <= k then SubProof(h, m, d[..k], b) + [Mth(h, d[k..])]
      else SubProof(h, m - k, d[k..], false) + [Mth(h, d[..k])]
  }

  function Proof(h: TreeHasher, m: nat, d: seq<Digest>): seq<Digest>
    requires 0 < m <= |d|
  {
    SubProof(h, m, d, true)
  }

  // ---------------------------------------------------------------- one level at a time

  /** The parents of one level: neighbours are hashed in pairs, an odd last node is promoted. */
  function PairUp(h: TreeHasher, d: seq<Digest>): (r: seq<Digest>)
    ensures |r| == (|d| + 1) / 2
  {
    if |d| < 2 then d else [h.HashChildren(d[0], d[1])] + PairUp(h, d[2..])
  }

  lemma {:induction false} PairUpAt(h: TreeHasher, d: seq<Digest>, i: nat)
    requires i < (|d| + 1) / 2
    ensures 2 * i + 1 < |d| ==> PairUp(h, d)[i] == h.HashChildren(d[2 * i], d[2 * i + 1])
    ensures 2 * i + 1 == |d| ==> PairUp(h, d)[i] == d[2 * i]
  {
    if |d| >= 2 && i > 0 {
      PairUpAt(h, d[2..], i - 1);
    }
  }

  lemma {:induction false} PairUpSplit(h: TreeHasher, d: seq<Digest>, k: nat)
    requires k <= |d| && k % 2 == 0
    ensures PairUp(h, d)[..k / 2] == PairUp(h, d[..k])
    ensures PairUp(h, d)[k / 2..] == PairUp(h, d[k..])
  {
    if k == 0 {
      assert d[..k] == [] && d[k..] == d;
    } else {
      PairUpSplit(h, d[2..], k - 2);
      assert d[2..][..k - 2] == d[..k][2..];
      assert d[2..][k - 2..] == d[k..];
      assert PairUp(h, d) == [h.HashChildren(d[0], d[1])] + PairUp(h, d[2..]);
    }
  }

  lemma {:induction false} MthStep(h: TreeHasher, d: seq<Digest>, k: nat)
    requires |d| >= 2 && k == Split(|d|)
    ensures Mth(h, d) == h.HashChildren(Mth(h, d[..k]), Mth(h, d[k..]))
  {
  }

  lemma {:induction false} PathStep(h: TreeHasher, m: nat, d: seq<Digest>, k: nat)
    requires m < |d| && |d| >= 2 && k == Split(|d|)
    ensures Path(h, m, d) ==
            if m < k then Path(h, m, d[..k]) + [Mth(h, d[k..])] else Path(h, m - k, d[k..]) + [Mth(h, d[..k])]
  {
  }

  lemma {:induction false} SubProofStep(h: TreeHasher, m: nat, d: seq<Digest>, b: bool, k: nat)
    requires 0 < m < |d| && k == Split(|d|)
    ensures SubProof(h, m, d, b) ==
            if m <= k then SubProof(h, m, d[..k], b) + [Mth(h, d[k..])]
            else SubProof(h, m - k, d[k..], false) + [Mth(h, d[..k])]
  {
  }

  /** Pairing a whole level keeps the tree hash. */
  lemma {:induction false} PairUpKeepsMth(h: TreeHasher, d: seq<Digest>)
    ensures Mth(h, PairUp(h, d)) == Mth(h, d)
    decreases |d|
  {
    hide Mth, PairUp, Split;
    if |d| <= 2 {
      PairUpSmall(h, d);
    } else {
      var k := Split(|d|);
      SplitHalf(|d|);
      PairUpKeepsMth(h, d[..k]);
      PairUpKeepsMth(h, d[k..]);
      PairedHalves(h, d, k / 2);
    }
  }

  lemma {:induction false} PairUpSmall(h: TreeHasher, d: seq<Digest>)
    requires |d| <= 2
    ensures Mth(h, PairUp(h, d)) == Mth(h, d)
  {
    if |d| == 2 {
      assert PairUp(h, d) == [h.HashChildren(d[0], d[1])];
      assert d[..1] == [d[0]] && d[1..] == [d[1]];
    }
  }

  lemma {:induction false} SplitHalf(n: nat)
    requires n > 2
    ensures Split(n) == 2 * Split((n + 1) / 2)
  {
  }

  lemma {:induction false} PairedHalves(h: TreeHasher, d: seq<Digest>, k: nat)
    requires |d| > 2 && Split(|d|) == 2 * k && Split((|d| + 1) / 2) == k
    requires Mth(h, PairUp(h, d[..2 * k])) == Mth(h, d[..2 * k]) && Mth(h, PairUp(h, d[2 * k..])) == Mth(h, d[2 * k..])
    ensures Mth(h, PairUp(h, d)) == Mth(h, d)
  {
    hide Mth, PairUp, Split;
    PairUpSplit(h, d, 2 * k);
    MthStep(h, d, 2 * k);
    MthStep(h, PairUp(h, d), k);
  }

  /** The node that node m is hashed with at its own level, if there is one. */
  function Sibling(m: nat, d: seq<Digest>): seq<Digest>
    requires m < |d|
  {
    if m % 2 == 1 then [d[m - 1]] else if m + 1 < |d| then [d[m + 1]] else []
  }

  lemma {:induction false} SiblingDrop(q: nat, r: nat, d: seq<Digest>, k: nat)
    requires r < 2 && k <= q && 2 * q + r < |d|
    ensures Sibling(2 * (q - k) + r, d[2 * k..]) == Sibling(2 * q + r, d)
  {
  }

  lemma {:induction false} SiblingTake(m: nat, d: seq<Digest>, k: nat)
    requires m < 2 * k <= |d|
    ensures Sibling(m, d[..2 * k]) == Sibling(m, d)
  {
    if m % 2 == 0 { assert m + 1 < 2 * k; }
  }

  /** The parent level splits where its children do. */
  lemma {:induction false} PairUpHalves(h: TreeHasher, d: seq<Digest>)
    requires |d| > 2
    ensures var k, p := Split(|d|), PairUp(h, d);
            && k % 2 == 0 && Split(|p|) == k / 2
            && p[..k / 2] == PairUp(h, d[..k]) && Mth(h, p[..k / 2]) == Mth(h, d[..k])
            && p[k / 2..] == PairUp(h, d[k..]) && Mth(h, p[k / 2..]) == Mth(h, d[k..])
  {
    var k := Split(|d|);
    PairUpSplit(h, d, k);
    PairUpKeepsMth(h, d[..k]);
    PairUpKeepsMth(h, d[k..]);
  }

  /** An audit path is the sibling of the leaf followed by the audit path of its parent. */
  lemma {:induction false} PathByLevel(h: TreeHasher, m: nat, d: seq<Digest>)
    requires m < |d|
    ensures Path(h, m, d) == Sibling(m, d) + Path(h, m / 2, PairUp(h, d))
  {
    PathOfParent(h, m / 2, m % 2, d);
  }

  lemma {:induction false} PathOfParent(h: TreeHasher, q: nat, r: nat, d: seq<Digest>)
    requires r < 2 && 2 * q + r < |d|
    ensures Path(h, 2 * q + r, d) == Sibling(2 * q + r, d) + Path(h, q, PairUp(h, d))
    decreases |d|
  {
    if |d| == 2 {
      assert d[..1] == [d[0]] && d[1..] == [d[1]];
    } else if |d| > 2 {
      PairUpHalves(h, d);
      if 2 * q < Split(|d|) {
        PathOfParentLeft(h, q, r, d, Split(|d|) / 2, PairUp(h, d));
      } else {
        PathOfParentRight(h, q, r, d, Split(|d|) / 2, PairUp(h, d));
      }
    }
  }

  lemma {:induction false} PathOfParentLeft(h: TreeHasher, q: nat, r: nat, d: seq<Digest>, k: nat, p: seq<Digest>)
    requires r < 2 && |d| > 2 && |p| >= 2 && Split(|d|) == 2 * k && Split(|p|) == k && q < k
    requires p[..k] == PairUp(h, d[..2 * k]) && Mth(h, p[k..]) == Mth(h, d[2 * k..])
    ensures Path(h, 2 * q + r, d) == Sibling(2 * q + r, d) + Path(h, q, p)
    decreases |d|, 0
  {
    hide Path, Mth, Split, PairUp;
    PathStep(h, 2 * q + r, d, 2 * k);
    PathStep(h, q, p, k);
    var s := Sibling(2 * q + r, d);
    assert Path(h, 2 * q + r, d[..2 * k]) == s + Path(h, q, p[..k]) by {
      PathOfParent(h, q, r, d[..2 * k]);
      SiblingTake(2 * q + r, d, k);
    }
    Assoc(s, Path(h, q, p[..k]), [Mth(h, d[2 * k..])]);
  }

  lemma {:induction false} PathGlueRight(h: TreeHasher, m: nat, q: nat, d: seq<Digest>, k: nat, p: seq<Digest>,
                                         s: seq<Digest>)
    requires |d| >= 2 && |p| >= 2 && Split(|d|) == 2 * k && Split(|p|) == k && m + 2 * k < |d| && k <= q < |p|
    requires Mth(h, p[..k]) == Mth(h, d[..2 * k])
    requires Path(h, m, d[2 * k..]) == s + Path(h, q - k, p[k..])
    ensures Path(h, m + 2 * k, d) == s + Path(h, q, p)
  {
    hide Path, Mth, Split;
    PathStep(h, m + 2 * k, d, 2 * k);
    PathStep(h, q, p, k);
    Assoc(s, Path(h, q - k, p[k..]), [Mth(h, d[..2 * k])]);
  }

  lemma {:induction false} PathOfParentRight(h: TreeHasher, q: nat, r: nat, d: seq<Digest>, k: nat, p: seq<Digest>)
    requires r < 2 && |d| > 2 && |p| >= 2 && Split(|d|) == 2 * k && Split(|p|) == k && k <= q < |p| && 2 * q + r < |d|
    requires p[k..] == PairUp(h, d[2 * k..]) && Mth(h, p[..k]) == Mth(h, d[..2 * k])
    ensures Path(h, 2 * q + r, d) == Sibling(2 * q + r, d) + Path(h, q, p)
    decreases |d|, 0
  {
    hide Split;
    hide Path;
    hide Mth;
    var m, s, e := 2 * (q - k) + r, Sibling(2 * q + r, d), d[2 * k..];
    assert Path(h, m, e) == s + Path(h, q - k, p[k..]) by {
      PathOfParent(h, q - k, r, e);
      SiblingDrop(q, r, d, k);
    }
    PathGlueRight(h, m, q, d, k, p, s);
  }

  /** An even prefix is a prefix at the next level too, with the same consistency proof. */
  lemma {:induction false} SubProofEven(h: TreeHasher, m: nat, d: seq<Digest>, b: bool)
    requires 0 < 2 * m <= |d|
    ensures SubProof(h, 2 * m, d, b) == SubProof(h, m, PairUp(h, d), b)
    decreases |d|
  {
    if 2 * m == |d| {
      PairUpKeepsMth(h, d);
    } else {
      PairUpHalves(h, d);
      SubProofEvenStep(h, m, d, b, Split(|d|) / 2, PairUp(h, d));
    }
  }

  lemma {:induction false} SubProofEvenStep(h: TreeHasher, m: nat, d: seq<Digest>, b: bool, k: nat, p: seq<Digest>)
    requires 0 < 2 * m < |d| && |p| == (|d| + 1) / 2 && Split(|d|) == 2 * k && Split(|p|) == k
    requires p[..k] == PairUp(h, d[..2 * k]) && Mth(h, p[..k]) == Mth(h, d[..2 * k])
    requires p[k..] == PairUp(h, d[2 * k..]) && Mth(h, p[k..]) == Mth(h, d[2 * k..])
    ensures SubProof(h, 2 * m, d, b) == SubProof(h, m, p, b)
    decreases |d|, 0
  {
    hide Split, Mth, SubProof, PairUp;
    SubProofStep(h, 2 * m, d, b, 2 * k);
    SubProofStep(h, m, p, b, k);
    if m <= k {
      SubProofEven(h, m, d[..2 * k], b);
    } else {
      SubProofEven(h, m - k, d[2 * k..], false);
    }
  }

  /** For an odd prefix of a larger tree the proof is the last old leaf with its audit path;
      the leaf is left out when it is the whole old tree. */
  lemma {:induction false} SubProofOdd(h: TreeHasher, m: nat, d: seq<Digest>, b: bool)
    requires 0 < m <= |d| && m % 2 == 1 && (m < |d| || m == 1)
    ensures SubProof(h, m, d, b) == (if b && m == 1 then [] else [d[m - 1]]) + Path(h, m - 1, d)
    decreases |d|
  {
    if m < |d| {
      var k := Split(|d|);
      SplitIsPower2(|d|);
      SubProofOddStep(h, m, d, b, k);
    }
  }

  lemma {:induction false} SubProofOddStep(h: TreeHasher, m: nat, d: seq<Digest>, b: bool, k: nat)
    requires 0 < m < |d| && m % 2 == 1 && k == Split(|d|) && (k == 1 || k % 2 == 0)
    ensures SubProof(h, m, d, b) == (if b && m == 1 then [] else [d[m - 1]]) + Path(h, m - 1, d)
    decreases |d|, 0
  {
    SplitBounds(|d|);
    hide Split, Mth, SubProof, Path;
    SubProofStep(h, m, d, b, k);
    PathStep(h, m - 1, d, k);
    if m <= k {
      SubProofOdd(h, m, d[..k], b);
      Assoc(if b && m == 1 then [] else [d[m - 1]], Path(h, m - 1, d[..k]), [Mth(h, d[k..])]);
    } else {
      OddBeyond(m, k, |d|);
      SubProofOdd(h, m - k, d[k..], false);
      Assoc([d[m - 1]], Path(h, m - 1 - k, d[k..]), [Mth(h, d[..k])]);
    }
  }

  lemma {:induction false} SplitBounds(n: nat)
    requires n >= 2
    ensures 0 < Split(n) < n <= 2 * Split(n)
  {
  }

  lemma {:induction false} OddBeyond(m: nat, k: nat, n: nat)
    requires m % 2 == 1 && (k == 1 || k % 2 == 0) && k < m < n <= 2 * k
    ensures (m - k) % 2 == 1
  {
  }

  /** Prefixes commute with pairing: an even prefix exactly, an odd one up to the promoted node. */
  lemma {:induction false} PairUpPrefix(h: TreeHasher, d: seq<Digest>, m: nat)
    requires m <= |d|
    ensures m % 2 == 0 ==> PairUp(h, d[..m]) == PairUp(h, d)[..m / 2]
    ensures m % 2 == 1 ==> PairUp(h, d[..m]) == PairUp(h, d)[..m / 2] + [d[m - 1]]
    decreases m
  {
    hide PairUp;
    if m >= 2 {
      PairUpPrefix(h, d[2..], m - 2);
      PairUpStep(h, d);
      PairUpStep(h, d[..m]);
      assert d[..m][2..] == d[2..][..m - 2];
      assert [h.HashChildren(d[0], d[1])] + PairUp(h, d[2..])[..m / 2 - 1] == PairUp(h, d)[..m / 2];
      if m % 2 == 1 {
        Assoc([h.HashChildren(d[0], d[1])], PairUp(h, d[2..])[..m / 2 - 1], [d[m - 1]]);
      }
    } else {
      PairUpSingle(h, d[..m]);
      if m == 1 { assert [] + [d[0]] == d[..1]; }
    }
  }

  lemma {:induction false} PairUpStep(h: TreeHasher, d: seq<Digest>)
    requires |d| >= 2
    ensures PairUp(h, d) == [h.HashChildren(d[0], d[1])] + PairUp(h, d[2..])
  {
  }

  lemma {:induction false} PairUpSingle(h: TreeHasher, d: seq<Digest>)
    requires |d| <= 1
    ensures PairUp(h, d) == d
  {
  }
}
