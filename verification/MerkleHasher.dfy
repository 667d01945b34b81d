/** merkle/merkle_hasher.go: the recursive full-tree hash, the level-by-level tree, and the leaf
    paths that travel through the zero-copy codec. */
module MerkleHasher {
  import opened Words
  import opened MerkleBits
  import opened MerkleSpec
  import opened MerkleFrontier
  import opened MerkleTree
  import opened ZeroCopy

  // ---------------------------------------------------------------- the full-tree hash

  /** _hash_full: a root and hashes for leaves[l..r], or None for the panic on a left half that does
      not yield one hash. */
  function HashFull(h: TreeHasher, leaves: seq<Digest>, l: nat, r: nat): Option<(Digest, seq<Digest>)>
    requires l <= r <= |leaves|
    decreases r - l
  {
    var width := r - l;
    if width == 0 then Some((h.HashEmpty(), []))
    else if width == 1 then Some((leaves[l], [leaves[l]]))
    else
      var split := Split(width);
      var left := HashFull(h, leaves, l, l + split);
      if left.None? || |left.value.1| != 1 then None
      else
        var right := HashFull(h, leaves, l + split, r);
        if right.None? then None
        else
          var root := h.HashChildren(left.value.0, right.value.0);
          Some((root, if split * 2 == width then [root] else left.value.1 + right.value.1))
  }

  /** The panic is unreachable, and the result is the root of the slice with the roots of its perfect
      subtrees. */
  lemma {:induction false} HashFullOk(h: TreeHasher, leaves: seq<Digest>, l: nat, r: nat)
    requires l <= r <= |leaves|
    ensures HashFull(h, leaves, l, r) == Some((Mth(h, leaves[l..r]), Frontier(h, leaves[l..r])))
    decreases r - l
  {
    hide Mth, Frontier, Split, HashFull;
    if r - l < 2 {
      HashFullBase(h, leaves, l, r);
    } else {
      var k := l + Split(r - l);
      HashFullOk(h, leaves, l, k);
      HashFullOk(h, leaves, k, r);
      HashOfHalves(h, leaves, l, r);
      HashFullStep(h, leaves, l, r);
    }
  }

  lemma {:induction false} HashFullBase(h: TreeHasher, leaves: seq<Digest>, l: nat, r: nat)
    requires l <= r <= |leaves| && r - l < 2
    ensures HashFull(h, leaves, l, r) == Some((Mth(h, leaves[l..r]), Frontier(h, leaves[l..r])))
  {
    hide Mth, Frontier;
    if r == l {
      HashOfNone(h, leaves[l..r]);
    } else {
      HashOfOne(h, leaves[l..r]);
    }
  }

  lemma {:induction false} HashFullStep(h: TreeHasher, leaves: seq<Digest>, l: nat, r: nat)
    requires l + 2 <= r <= |leaves|
    requires var k := l + Split(r - l);
             && HashFull(h, leaves, l, k).Some? && HashFull(h, leaves, k, r).Some?
             && |HashFull(h, leaves, l, k).value.1| == 1
    ensures var k := l + Split(r - l);
            var (lRoot, lHashes) := HashFull(h, leaves, l, k).value;
            var (rRoot, rHashes) := HashFull(h, leaves, k, r).value;
            var root := h.HashChildren(lRoot, rRoot);
            HashFull(h, leaves, l, r) ==
            Some((root, if Split(r - l) * 2 == r - l then [root] else lHashes + rHashes))
  {
    hide Split;
  }

  lemma {:induction false} HashOfNone(h: TreeHasher, d: seq<Digest>)
    requires |d| == 0
    ensures Mth(h, d) == h.HashEmpty() && Frontier(h, d) == []
  {
  }

  lemma {:induction false} HashOfOne(h: TreeHasher, d: seq<Digest>)
    requires |d| == 1
    ensures Mth(h, d) == d[0] && Frontier(h, d) == [d[0]]
  {
    assert d == [d[0]] && d[..1] == [d[0]] && d[1..] == [];
  }

  lemma {:induction false} HashOfHalves(h: TreeHasher, leaves: seq<Digest>, l: nat, r: nat)
    requires l + 2 <= r <= |leaves|
    ensures var k := l + Split(r - l);
            && Mth(h, leaves[l..r]) == h.HashChildren(Mth(h, leaves[l..k]), Mth(h, leaves[k..r]))
            && |Frontier(h, leaves[l..k])| == 1
            && Frontier(h, leaves[l..r]) ==
               if Split(r - l) * 2 == r - l then [Mth(h, leaves[l..r])]
               else Frontier(h, leaves[l..k]) + Frontier(h, leaves[k..r])
  {
    hide Frontier, Split, Mth, TreeHasher.HashChildren;
    var k := Split(r - l);
    HalvesOfSlice(leaves, l, r, k);
    HashOfParts(h, leaves[l..r], leaves[l..l + k], leaves[l + k..r]);
  }

  lemma {:induction false} HashOfParts(h: TreeHasher, d: seq<Digest>, a: seq<Digest>, b: seq<Digest>)
    requires |d| >= 2 && a == d[..Split(|d|)] && b == d[Split(|d|)..]
    ensures Mth(h, d) == h.HashChildren(Mth(h, a), Mth(h, b)) && |Frontier(h, a)| == 1
    ensures Frontier(h, d) == if Split(|d|) * 2 == |d| then [Mth(h, d)] else Frontier(h, a) + Frontier(h, b)
  {
    hide Frontier, Split, Mth, TreeHasher.HashChildren;
    MthOfHalves(h, d);
    FrontierOfHalves(h, d);
  }

  lemma {:induction false} MthOfHalves(h: TreeHasher, d: seq<Digest>)
    requires |d| >= 2
    ensures var k := Split(|d|);
            Mth(h, d) == h.HashChildren(Mth(h, d[..k]), Mth(h, d[k..]))
  {
  }

  lemma {:induction false} HalvesOfSlice(leaves: seq<Digest>, l: nat, r: nat, k: nat)
    requires l <= l + k <= r <= |leaves|
    ensures leaves[l..r][..k] == leaves[l..l + k] && leaves[l..r][k..] == leaves[l + k..r]
  {
  }

  lemma {:induction false} FrontierOfHalves(h: TreeHasher, d: seq<Digest>)
    requires |d| >= 2
    ensures var k := Split(|d|);
            && Frontier(h, d[..k]) == [Mth(h, d[..k])]
            && Frontier(h, d) == if 2 * k == |d| then [Mth(h, d)] else Frontier(h, d[..k]) + Frontier(h, d[k..])
  {
    hide Mth;
    var k := Split(|d|);
    SplitIsPower2(|d|);
    StoredOfPower2(h, d[..k]);
    assert IsPower2(2 * k) by { assert 2 * k / 2 == k; }
    if IsPower2(|d|) {
      SplitOfPower2(|d|);
      StoredOfPower2(h, d);
    } else {
      FirstBelow(|d|);
      FrontierStep(h, d);
    }
  }

  /** Neither of its own two panics is reachable, the debug check included. */
  method HashFullTreeWithLeafHash(h: TreeHasher, leaves: seq<Digest>, debugCheck: bool) returns (root: Digest)
    requires |leaves| < TWO_32
    ensures root == Mth(h, leaves)
  {
    HashFullOk(h, leaves, 0, |leaves|);
    assert leaves[0..|leaves|] == leaves;
    var (rootHash, hashes) := HashFull(h, leaves, 0, |leaves|).value;
    var count := CountBits(|leaves|);
    FrontierLength(h, leaves);
    if |hashes| != count { assert false; }
    if debugCheck {
      var root2 := h.HashEmpty();
      if |hashes| != 0 {
        root2 := HashFold(h, hashes);
      }
      if |leaves| > 0 { FoldFrontier(h, leaves); }
      if rootHash != root2 { assert false; }
    }
    return rootHash;
  }

  // ---------------------------------------------------------------- level by level

  /** One level of MerkleHashes. */
  method NextLevel(h: TreeHasher, level: seq<Digest>) returns (next: seq<Digest>)
    ensures next == PairUp(h, level)
  {
    var remainder := |level| % 2;
    var nextLevel := new Digest[|level| / 2 + remainder](_ => EMPTY_HASH);
    var j, k := 0, 0;
    while j < |level| - 1
      invariant j == 2 * k && k <= |level| / 2
      invariant forall i :: 0 <= i < k ==> nextLevel[i] == PairUp(h, level)[i]
    {
      nextLevel[k] := h.HashChildren(level[j], level[j + 1]);
      PairUpAt(h, level, k);
      k := k + 1;
      j := j + 2;
    }
    if remainder != 0 {
      nextLevel[k] := level[|level| - 1];
      PairUpAt(h, level, k);
    }
    next := nextLevel[..];
  }

  /** The source's depth, a ceiling of a binary logarithm. */
  function Depth(n: nat): nat
    requires n >= 1
  {
    BitLen(n - 1)
  }

  lemma {:induction false} BitLenRange(x: nat)
    ensures x < Pow2(BitLen(x)) && (x > 0 ==> Pow2(BitLen(x) - 1) <= x)
  {
    if x > 0 { BitLenRange(x / 2); }
  }

  function Ceil(x: real): int { -(-x).Floor }

  /** The source's Ceil(Log2(n)): Log2 splits n into a fraction from [1/2, 1) and a power of two, is
      exact when the fraction is 1/2, and else returns log, the rounded sum of the power's exponent
      and the fraction's logarithm. */
  function CeilLog2(n: nat, log: real): int
    requires n >= 1
  {
    if n == Pow2(BitLen(n) - 1) then Ceil((BitLen(n) - 1) as real) else Ceil(log)
  }

  /** Depth is the least d with n <= 2^d. The source finds it exactly when n is a power of two or
      the rounding left log above the exponent of the power of two below n and not above the next. */
  lemma {:induction false} DepthIsCeilLog(n: nat, log: real)
    requires n >= 1
    ensures n <= Pow2(Depth(n)) && (Depth(n) > 0 ==> Pow2(Depth(n) - 1) < n)
    ensures CeilLog2(n, log) == Depth(n) <==>
            n == Pow2(BitLen(n) - 1) || (BitLen(n) - 1) as real < log <= BitLen(n) as real
  {
    BitLenRange(n - 1);
    BitLenPred(n);
  }

  lemma {:induction false} BitLenPred(n: nat)
    requires n >= 1
    ensures BitLen(n - 1) == if n == Pow2(BitLen(n) - 1) then BitLen(n) - 1 else BitLen(n)
  {
    if n > 1 {
      BitLenPred(n / 2);
      BitLenPredStep(n, n / 2, BitLen(n / 2));
    }
  }

  lemma {:induction false} BitLenPredStep(n: nat, q: nat, b: nat)
    requires n > 1 && q == n / 2 && b == BitLen(q) > 0
    requires BitLen(q - 1) == if q == Pow2(b - 1) then b - 1 else b
    ensures BitLen(n - 1) == if n == Pow2(BitLen(n) - 1) then BitLen(n) - 1 else BitLen(n)
  {
    assert BitLen(n) == b + 1 && Pow2(b) == 2 * Pow2(b - 1);
    hide Pow2, BitLen;
    if n == 2 * q {
      BitLenHalf(n - 1, q - 1);
    } else {
      assert n == 2 * q + 1;
      BitLenHalf(n - 1, q);
    }
  }

  lemma {:induction false} BitLenHalf(x: nat, q: nat)
    requires x > 0 && (x == 2 * q || x == 2 * q + 1)
    ensures BitLen(x) == 1 + BitLen(q)
  {
    assert x / 2 == q;
  }

  lemma {:induction false} DepthOfParents(h: TreeHasher, d: seq<Digest>)
    requires |d| >= 2
    ensures Depth(|d|) == 1 + Depth(|PairUp(h, d)|)
  {
    assert (|d| + 1) / 2 - 1 == (|d| - 1) / 2;
  }

  method MerkleHashes(h: TreeHasher, leaves: seq<Digest>, depth: nat) returns (levels: seq<seq<Digest>>)
    ensures |levels| == depth + 1 && levels[depth] == leaves
    ensures forall i :: 0 <= i < depth ==> levels[i] == PairUp(h, levels[i + 1])
    ensures Mth(h, levels[0]) == Mth(h, leaves)
  {
    var rows := new seq<Digest>[depth + 1](_ => []);
    rows[depth] := leaves;
    var i := depth;
    while i > 0
      invariant 0 <= i <= depth && rows[depth] == leaves && Mth(h, rows[i]) == Mth(h, leaves)
      invariant forall j :: i <= j < depth ==> rows[j] == PairUp(h, rows[j + 1])
    {
      PairUpKeepsMth(h, rows[i]);
      rows[i - 1] := NextLevel(h, rows[i]);
      i := i - 1;
    }
    levels := rows[..];
  }

  // ---------------------------------------------------------------- leaf paths

  const LEFT: Byte := 0
  const RIGHT: Byte := 1
  const MAX_SIZE: nat := 1024 * 1024

  /** A sibling and the side it stands on. */
  datatype Step = Step(left: bool, hash: Digest)

  function StepHash(h: TreeHasher, s: Step, hash: Digest): Digest {
    if s.left then h.HashChildren(s.hash, hash) else h.HashChildren(hash, s.hash)
  }

  function StepInput(h: TreeHasher, s: Step, hash: Digest): Bytes {
    if s.left then h.ChildrenInput(s.hash, hash) else h.ChildrenInput(hash, s.hash)
  }

  function Climb(h: TreeHasher, hash: Digest, steps: seq<Step>): Digest
    decreases |steps|
  {
    if steps == [] then hash else Climb(h, StepHash(h, steps[0], hash), steps[1..])
  }

  /** The siblings of node m from level d upwards. */
  function LeafSteps(h: TreeHasher, m: nat, d: seq<Digest>): seq<Step>
    requires m < |d|
    decreases |d|
  {
    if |d| == 1 then []
    else LevelStep(m, d) + LeafSteps(h, m / 2, PairUp(h, d))
  }

  function LevelStep(m: nat, d: seq<Digest>): seq<Step>
    requires m < |d|
  {
    var s := Sibling(m, d);
    if s == [] then [] else [Step(m % 2 == 1, s[0])]
  }

  lemma {:induction false} LeafStepsLength(h: TreeHasher, m: nat, d: seq<Digest>)
    requires m < |d|
    ensures |LeafSteps(h, m, d)| <= Depth(|d|)
    decreases |d|
  {
    if |d| > 1 {
      DepthOfParents(h, d);
      LeafStepsLength(h, m / 2, PairUp(h, d));
    }
  }

  /** Climbing the siblings of a leaf ends in the root of the recursive tree. */
  lemma {:induction false} LeafStepsReachRoot(h: TreeHasher, m: nat, d: seq<Digest>)
    requires m < |d|
    ensures Climb(h, d[m], LeafSteps(h, m, d)) == Mth(h, d)
    decreases |d|
  {
    if |d| > 1 {
      LeafStepsReachRoot(h, m / 2, PairUp(h, d));
      LevelStepParent(h, m, d, LeafSteps(h, m / 2, PairUp(h, d)));
      PairUpKeepsMth(h, d);
    }
  }

  lemma {:induction false} LevelStepParent(h: TreeHasher, m: nat, d: seq<Digest>, rest: seq<Step>)
    requires m < |d| && |d| >= 2
    ensures m / 2 < |PairUp(h, d)|
    ensures Climb(h, d[m], LevelStep(m, d) + rest) == Climb(h, PairUp(h, d)[m / 2], rest)
  {
    hide PairUp, Climb;
    ParentOf(h, m, m / 2, d);
    if LevelStep(m, d) == [] {
      assert [] + rest == rest;
    } else {
      assert (LevelStep(m, d) + rest)[1..] == rest;
      ClimbOnce(h, d[m], LevelStep(m, d) + rest);
    }
  }

  lemma {:induction false} ClimbOnce(h: TreeHasher, hash: Digest, steps: seq<Step>)
    requires steps != []
    ensures Climb(h, hash, steps) == Climb(h, StepHash(h, steps[0], hash), steps[1..])
  {
  }

  lemma {:induction false} ParentOf(h: TreeHasher, m: nat, q: nat, d: seq<Digest>)
    requires m < |d| && |d| >= 2 && q == m / 2
    ensures q < |PairUp(h, d)|
    ensures PairUp(h, d)[q] == if LevelStep(m, d) == [] then d[m] else StepHash(h, LevelStep(m, d)[0], d[m])
  {
    hide PairUp;
    assert m == 2 * q || m == 2 * q + 1;
    PairUpAt(h, d, q);
  }

  function StepBytes(s: Step): (b: Bytes)
    ensures |b| == 33
  {
    [if s.left then LEFT else RIGHT] + s.hash
  }

  function StepsBytes(steps: seq<Step>): (b: Bytes)
    ensures |b| == 33 * |steps|
  {
    if steps == [] then [] else StepBytes(steps[0]) + StepsBytes(steps[1..])
  }

  /** The steps by positions: 33 bytes each, 0 for a sibling on the left and 1 for one on the right,
      and the sibling. */
  lemma {:induction false} StepsLayout(steps: seq<Step>, i: nat)
    requires i < |steps|
    ensures var b := StepsBytes(steps);
      && b[33 * i] == (if steps[i].left then 0 else 1)
      && b[33 * i + 1..33 * i + 33] == steps[i].hash
  {
    hide StepBytes;
    var b, tail := StepsBytes(steps), StepsBytes(steps[1..]);
    StepLayout(steps[0]);
    if i == 0 {
      assert b[..33] == StepBytes(steps[0]);
      assert b[1..33] == b[..33][1..];
    } else {
      StepsLayout(steps[1..], i - 1);
      assert b[33..] == tail;
      TailSlice(b, 33, 33 * (i - 1) + 1, 33 * (i - 1) + 33);
      assert b[33..][33 * (i - 1)] == b[33 * i];
    }
  }

  lemma {:induction false} StepLayout(s: Step)
    ensures StepBytes(s)[0] == (if s.left then 0 else 1) && StepBytes(s)[1..] == s.hash
  {
  }

  lemma {:induction false} StepsBytesOfConcat(a: seq<Step>, b: seq<Step>)
    ensures StepsBytes(a + b) == StepsBytes(a) + StepsBytes(b)
  {
    if a == [] {
      assert a + b == b;
    } else {
      StepsBytesOfConcat(a[1..], b);
      assert (a + b)[1..] == a[1..] + b;
      Assoc(StepBytes(a[0]), StepsBytes(a[1..]), StepsBytes(b));
    }
  }

  /** Read count steps of 33 bytes; any flag but LEFT means right. */
  function ReadSteps(s: Bytes, count: nat): Option<seq<Step>>
    decreases count
  {
    if count == 0 then Some([])
    else if |s| < 33 then None
    else
      var rest := ReadSteps(s[33..], count - 1);
      if rest.None? then None else Some([Step(s[0] == LEFT, s[1..33])] + rest.value)
  }

  lemma {:induction false} ReadStepsRoundTrip(steps: seq<Step>, count: nat)
    ensures ReadSteps(StepsBytes(steps), count) ==
            if count <= |steps| then Some(steps[..count]) else None
    decreases count
  {
    if count > 0 && steps != [] {
      var b := StepsBytes(steps);
      ReadStepsRoundTrip(steps[1..], count - 1);
      assert b[33..] == StepsBytes(steps[1..]);
      assert b[1..33] == steps[0].hash;
      if count <= |steps| { assert [steps[0]] + steps[1..][..count - 1] == steps[..count]; }
    }
  }

  /** getIndex: the first position of a leaf hash, or -1 if it is nowhere. */
  method GetIndex(leaf: Digest, hashes: seq<Digest>) returns (index: int)
    ensures index == -1 <==> leaf !in hashes
    ensures index != -1 ==> 0 <= index < |hashes| && hashes[index] == leaf && leaf !in hashes[..index]
  {
    for i := 0 to |hashes|
      invariant leaf !in hashes[..i]
    {
      if hashes[i] == leaf { return i; }
    }
    assert hashes[..|hashes|] == hashes;
    return -1;
  }

  datatype PathResult = PathBytes(bytes: Bytes) | TooLarge | NoSuchValue

  method MerkleLeafPath(h: TreeHasher, data: Bytes, hashes: seq<Digest>) returns (r: PathResult)
    ensures r.TooLarge? <==> |hashes| * 33 + |data| + 8 > MAX_SIZE
    ensures r.NoSuchValue? <==> !r.TooLarge? && h.HashLeaf(data) !in hashes
    ensures r.PathBytes? ==>
              exists m :: 0 <= m < |hashes| && hashes[m] == h.HashLeaf(data) && h.HashLeaf(data) !in hashes[..m] &&
                          r.bytes == VarBytes(data) + StepsBytes(LeafSteps(h, m, hashes))
  {
    var size := |hashes| * (UINT256_SIZE + 1) + |data| + 8;
    if size > MAX_SIZE { return TooLarge; }
    var index := GetIndex(h.HashLeaf(data), hashes);
    if index < 0 { return NoSuchValue; }
    var sink := new ZeroCopySink(size);
    var _ := sink.WriteVarBytes(data);
    assert sink.Contents() == VarBytes(data) by { assert [] + VarBytes(data) == VarBytes(data); }
    WritePath(h, sink, index, hashes);
    r := PathBytes(sink.arr[..sink.len]);
  }

  method WritePath(h: TreeHasher, sink: ZeroCopySink, m: nat, hashes: seq<Digest>)
    requires m < |hashes| && sink.Valid()
    modifies sink, sink.arr
    ensures sink.Valid() && sink.Contents() == old(sink.Contents()) + StepsBytes(LeafSteps(h, m, hashes))
  {
    hide Mth, PairUp, LeafSteps, StepsBytes, LevelStep;
    var d := Depth(|hashes|);
    var levels := MerkleHashes(h, hashes, d);
    var index: nat, i := m, d;
    ghost var before, all := sink.Contents(), LeafSteps(h, m, hashes);
    ghost var done: seq<Step> := [];
    assert [] + all == all && StepsBytes([]) == [] && before + [] == before;
    while i > 0
      invariant 0 <= i <= d && index < |levels[i]| && Depth(|levels[i]|) == i
      invariant sink.Valid() && (sink.arr == old(sink.arr) || fresh(sink.arr))
      invariant done + LeafSteps(h, index, levels[i]) == all
      invariant sink.Contents() == before + StepsBytes(done)
    {
      var subTree := levels[i];
      LeafStepsUnfold(h, index, subTree);
      DepthOfParents(h, subTree);
      ghost var step := LevelStep(index, subTree);
      Assoc(done, step, LeafSteps(h, index / 2, PairUp(h, subTree)));
      StepsBytesOfConcat(done, step);
      Assoc(before, StepsBytes(done), StepsBytes(step));
      WriteLevel(sink, index, subTree);
      done := done + step;
      index := index / 2;
      i := i - 1;
    }
    LeafStepsEnd(h, index, levels[0]);
    assert done + [] == done;
  }

  /** One round of the loop: nothing for an odd last node, else the side and the sibling. */
  method WriteLevel(sink: ZeroCopySink, index: nat, subTree: seq<Digest>)
    requires index < |subTree| && sink.Valid()
    modifies sink, sink.arr
    ensures sink.Valid() && (sink.arr == old(sink.arr) || fresh(sink.arr))
    ensures sink.Contents() == old(sink.Contents()) + StepsBytes(LevelStep(index, subTree))
  {
    if index == |subTree| - 1 && |subTree| % 2 != 0 {
      assert LevelStep(index, subTree) == [];
      assert sink.Contents() + [] == sink.Contents();
      return;
    }
    ghost var before := sink.Contents();
    if index % 2 != 0 {
      SingleStepBytes(Step(true, subTree[index - 1]));
      sink.WriteByte(LEFT);
      sink.WriteHash(subTree[index - 1]);
      Assoc(before, [LEFT], subTree[index - 1]);
    } else {
      SingleStepBytes(Step(false, subTree[index + 1]));
      sink.WriteByte(RIGHT);
      sink.WriteHash(subTree[index + 1]);
      Assoc(before, [RIGHT], subTree[index + 1]);
    }
  }

  lemma {:induction false} SingleStepBytes(s: Step)
    ensures StepsBytes([s]) == [if s.left then LEFT else RIGHT] + s.hash
  {
    assert StepsBytes([]) == [];
    assert StepsBytes([s]) == StepBytes(s) + StepsBytes([s][1..]);
  }

  lemma {:induction false} LeafStepsUnfold(h: TreeHasher, m: nat, d: seq<Digest>)
    requires m < |d| && Depth(|d|) > 0
    ensures |d| >= 2 && m / 2 < |PairUp(h, d)|
    ensures LeafSteps(h, m, d) == LevelStep(m, d) + LeafSteps(h, m / 2, PairUp(h, d))
  {
  }

  lemma {:induction false} LeafStepsEnd(h: TreeHasher, m: nat, d: seq<Digest>)
    requires m < |d| && Depth(|d|) == 0
    ensures LeafSteps(h, m, d) == []
  {
  }

  // ---------------------------------------------------------------- checking a leaf path

  /** The verdict of MerkleProve: the value, or None for each of its errors. */
  function Proved(h: TreeHasher, path: Bytes, root: Digest): Option<Bytes> {
    var r := ReadVarUint(path);
    var end := r.taken + r.data;
    if r.irregular || (if r.data > 0 then end > |path| else r.eof) then None
    else
      var value, rest := path[r.taken..end], path[end..];
      var steps := ReadSteps(rest, |rest| / UINT256_SIZE);
      if steps.Some? && Climb(h, h.HashLeaf(value), steps.value) == root then Some(value) else None
  }

  lemma {:induction false} NoSteps(h: TreeHasher, hash: Digest, s: Bytes)
    ensures ReadSteps(s, 0) == Some([]) && Climb(h, hash, []) == hash
  {
  }

  /** One step read is one step climbed. */
  lemma {:induction false} OneStep(h: TreeHasher, hash: Digest, s: Bytes, count: nat)
    requires count > 0
    ensures |s| < 33 ==> ReadSteps(s, count) == None
    ensures |s| >= 33 ==>
      var rest := ReadSteps(s[33..], count - 1);
      var up := if s[0] == LEFT then h.HashChildren(s[1..33], hash) else h.HashChildren(hash, s[1..33]);
      && ReadSteps(s, count).Some? == rest.Some?
      && (rest.Some? ==> Climb(h, hash, ReadSteps(s, count).value) == Climb(h, up, rest.value))
  {
    if |s| >= 33 && ReadSteps(s[33..], count - 1).Some? {
      var rest := ReadSteps(s[33..], count - 1).value;
      assert ([Step(s[0] == LEFT, s[1..33])] + rest)[1..] == rest;
    }
  }

  /** A step of a path: a flag, a hash and what follows. */
  lemma {:induction false} StepParts(path: Bytes, at: nat)
    requires at + 33 <= |path|
    ensures var tail := path[at..];
            tail[0] == path[at] && tail[1..33] == path[at + 1..at + 33] && tail[33..] == path[at + 33..]
  {
    TailSlice(path, at, 1, 33);
    TailSlice(path, at, 33, |path| - at);
  }

  method MerkleProve(h: TreeHasher, path: Bytes, root: Digest) returns (r: Option<Bytes>)
    requires |path| < TWO_64
    ensures r == Proved(h, path, root)
  {
    hide ReadVarUint, ReadSteps, Climb, StepHash;
    var source := new ZeroCopySource(path);
    assert path[0..] == path;
    var value, _, irr, eof := source.NextVarBytes();
    if eof || irr { return None; }
    var start := source.off;
    var hash := h.HashLeaf(value);
    var size := (|path| - start) / UINT256_SIZE;
    ghost var steps := ReadSteps(path[start..], size);
    for i := 0 to size
      invariant source.Valid() && source.s == path
      invariant ReadSteps(path[source.off..], size - i).Some? == steps.Some?
      invariant steps.Some? ==>
                  Climb(h, hash, ReadSteps(path[source.off..], size - i).value) ==
                  Climb(h, h.HashLeaf(value), steps.value)
    {
      ghost var tail, at := path[source.off..], source.off;
      OneStep(h, hash, tail, size - i);
      var f, e := source.NextByte();
      if e { return None; }
      var v, e2 := source.NextHash();
      if e2 { return None; }
      StepParts(path, at);
      if f == LEFT {
        hash := h.HashChildren(v, hash);
      } else {
        hash := h.HashChildren(hash, v);
      }
    }
    NoSteps(h, hash, path[source.off..]);
    if hash != root { return None; }
    return Some(value);
  }

  /** The loop count is the remaining length over 32 while a step takes 33 bytes, so a written
      path is read in full, and accepted, exactly when it has fewer than 32 steps. */
  lemma {:induction false} ProvedExact(h: TreeHasher, data: Bytes, steps: seq<Step>)
    requires |data| < TWO_64
    ensures Proved(h, VarBytes(data) + StepsBytes(steps), Climb(h, h.HashLeaf(data), steps)) ==
            if |steps| < 32 then Some(data) else None
  {
    hide ReadVarUint, ReadSteps, StepsBytes, Climb;
    var rest := StepsBytes(steps);
    var path := VarBytes(data) + rest;
    Assoc(VarUint(|data|), data, rest);
    VarUintRoundTrip(|data|, data + rest);
    var start := GetVarUintSize(|data|);
    assert path[start..start + |data|] == data;
    assert path[start + |data|..] == rest;
    ReadStepsRoundTrip(steps, |rest| / UINT256_SIZE);
    assert steps[..|steps|] == steps;
  }

  /** Every path MerkleLeafPath returns is accepted against the recursive tree's root, with the
      original data: the size limit keeps the depth below 16. */
  lemma {:induction false} LeafPathAccepted(h: TreeHasher, data: Bytes, hashes: seq<Digest>, m: nat)
    requires |hashes| * 33 + |data| + 8 <= MAX_SIZE
    requires m < |hashes| && hashes[m] == h.HashLeaf(data)
    ensures Proved(h, VarBytes(data) + StepsBytes(LeafSteps(h, m, hashes)), Mth(h, hashes)) == Some(data)
  {
    hide Mth, LeafSteps, Proved, StepsBytes;
    LeafStepsReachRoot(h, m, hashes);
    LeafStepsLength(h, m, hashes);
    ShortDepth(|hashes|);
    ProvedExact(h, data, LeafSteps(h, m, hashes));
  }

  lemma {:induction false} ShortDepth(n: nat)
    requires 1 <= n <= 0x8000
    ensures Depth(n) <= 15
  {
    BitLenBound(n - 1, 15);
    assert Pow2(5) == 32;
    assert Pow2(10) == 1024;
    assert Pow2(15) == 0x8000;
  }

  lemma {:induction false} BitLenBound(x: nat, w: nat)
    requires x < Pow2(w)
    ensures BitLen(x) <= w
  {
    if x > 0 { BitLenBound(x / 2, w - 1); }
  }

  function LeafHashes(h: TreeHasher, values: seq<Bytes>): seq<Digest> {
    seq(|values|, i requires 0 <= i < |values| => h.HashLeaf(values[i]))
  }

  /** The bytes whose hash is the root: a leaf's, a node's, or those of the empty tree. */
  function RootInput(h: TreeHasher, values: seq<Bytes>): Bytes {
    var d := LeafHashes(h, values);
    if |d| == 0 then []
    else if |d| == 1 then h.LeafInput(values[0])
    else h.ChildrenInput(Mth(h, d[..Split(|d|)]), Mth(h, d[Split(|d|)..]))
  }

  /** The bytes last hashed when a value is climbed along some steps. */
  function TopInput(h: TreeHasher, value: Bytes, steps: seq<Step>): Bytes {
    if steps == [] then h.LeafInput(value)
    else
      var n := |steps| - 1;
      StepInput(h, steps[n], Climb(h, h.HashLeaf(value), steps[..n]))
  }

  lemma {:induction false} RootInputHash(h: TreeHasher, values: seq<Bytes>)
    ensures h.sha(RootInput(h, values)) == Mth(h, LeafHashes(h, values))
  {
  }

  lemma {:induction false} TopInputHash(h: TreeHasher, value: Bytes, steps: seq<Step>)
    ensures h.sha(TopInput(h, value, steps)) == Climb(h, h.HashLeaf(value), steps)
  {
    if steps != [] { ClimbLast(h, h.HashLeaf(value), steps); }
  }

  lemma {:induction false} ClimbLast(h: TreeHasher, hash: Digest, steps: seq<Step>)
    requires steps != []
    ensures var n := |steps| - 1; Climb(h, hash, steps) == StepHash(h, steps[n], Climb(h, hash, steps[..n]))
    decreases |steps|
  {
    var n := |steps| - 1;
    if n > 0 {
      ClimbLast(h, StepHash(h, steps[0], hash), steps[1..]);
      assert steps[1..][..n - 1] == steps[..n][1..];
    }
  }

  /** The half of the values a last step descends into. */
  function Half(values: seq<Bytes>, right: bool): seq<Bytes>
    requires |values| >= 2
  {
    if right then values[Split(|values|)..] else values[..Split(|values|)]
  }

  lemma {:induction false} HalfHashes(h: TreeHasher, values: seq<Bytes>)
    requires |values| >= 2
    ensures var k := Split(|values|);
            && LeafHashes(h, values[..k]) == LeafHashes(h, values)[..k]
            && LeafHashes(h, values[k..]) == LeafHashes(h, values)[k..]
  {
  }

  /** From the root down, the first place where the claimed and the true hash inputs differ. */
  function PathClash(h: TreeHasher, values: seq<Bytes>, value: Bytes, steps: seq<Step>): (Bytes, Bytes)
    decreases |steps|
  {
    if TopInput(h, value, steps) != RootInput(h, values) || |values| < 2 || steps == [] then
      (TopInput(h, value, steps), RootInput(h, values))
    else
      var n := |steps| - 1;
      PathClash(h, Half(values, steps[n].left), value, steps[..n])
  }

  /** Climbing to the true root means starting from one of the values, or a SHA-256 collision is
      at hand; leaf and node inputs differ in their first byte, so no node passes for a leaf. */
  lemma {:induction false} ClimbSound(h: TreeHasher, values: seq<Bytes>, value: Bytes, steps: seq<Step>)
    requires Climb(h, h.HashLeaf(value), steps) == Mth(h, LeafHashes(h, values))
    ensures value in values || Collides(h.sha, PathClash(h, values, value, steps))
    decreases |steps|
  {
    RootInputHash(h, values);
    TopInputHash(h, value, steps);
    var top, root := TopInput(h, value, steps), RootInput(h, values);
    if top == root {
      FirstByte(h, values, value, steps);
      if steps == [] {
        assert h.LeafInput(value)[1..] == value && h.LeafInput(values[0])[1..] == values[0];
      } else {
        var n := |steps| - 1;
        DescendClaim(h, values, value, steps);
        ClimbSound(h, Half(values, steps[n].left), value, steps[..n]);
      }
    }
  }

  /** Equal inputs are of one kind. */
  lemma {:induction false} FirstByte(h: TreeHasher, values: seq<Bytes>, value: Bytes, steps: seq<Step>)
    requires TopInput(h, value, steps) == RootInput(h, values)
    ensures if steps == [] then |values| == 1 else |values| >= 2
  {
    hide Mth, Climb;
    var top, root := TopInput(h, value, steps), RootInput(h, values);
    assert |top| > 0 && top[0] == if steps == [] then 0 else 1;
    assert |values| > 0 ==> root[0] == if |values| == 1 then 0 else 1;
  }

  lemma {:induction false} DescendClaim(h: TreeHasher, values: seq<Bytes>, value: Bytes, steps: seq<Step>)
    requires |values| >= 2 && steps != [] && TopInput(h, value, steps) == RootInput(h, values)
    ensures var n := |steps| - 1;
            Climb(h, h.HashLeaf(value), steps[..n]) == Mth(h, LeafHashes(h, Half(values, steps[n].left)))
  {
    hide Mth, Climb, LeafHashes;
    var n := |steps| - 1;
    var hash, s := Climb(h, h.HashLeaf(value), steps[..n]), steps[n];
    HalfHashes(h, values);
    var d, k := LeafHashes(h, values), Split(|values|);
    assert |d| == |values| by { LeafHashesLength(h, values); }
    if s.left {
      ChildrenInputInjective(h, s.hash, hash, Mth(h, d[..k]), Mth(h, d[k..]));
    } else {
      ChildrenInputInjective(h, hash, s.hash, Mth(h, d[..k]), Mth(h, d[k..]));
    }
  }

  lemma {:induction false} LeafHashesLength(h: TreeHasher, values: seq<Bytes>)
    ensures |LeafHashes(h, values)| == |values|
  {
  }

  /** The steps an accepted path spells out. */
  function PathSteps(path: Bytes): seq<Step> {
    var r := ReadVarUint(path);
    var end := r.taken + r.data;
    if end > |path| then []
    else
      var steps := ReadSteps(path[end..], |path[end..]| / UINT256_SIZE);
      if steps.Some? then steps.value else []
  }

  /** Whatever byte string MerkleProve accepts against the root of some values, it returns one of
      them, or the path and the tree hold a SHA-256 collision. */
  lemma {:induction false} ProveSound(h: TreeHasher, values: seq<Bytes>, path: Bytes)
    ensures var r := Proved(h, path, Mth(h, LeafHashes(h, values)));
            r.Some? ==> r.value in values || Collides(h.sha, PathClash(h, values, r.value, PathSteps(path)))
  {
    hide Mth, Climb, PathClash, ReadVarUint, ReadSteps;
    var r := Proved(h, path, Mth(h, LeafHashes(h, values)));
    if r.Some? {
      ClimbSound(h, values, r.value, PathSteps(path));
    }
  }
}
