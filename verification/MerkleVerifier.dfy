/** merkle/merkle_tree.go, MerkleVerifier: the bit-walking checks of audit paths and consistency
    proofs, and what their verdicts mean for RFC 6962's trees. */
module MerkleVerifier {
  import opened Words
  import opened MerkleSpec

  // ---------------------------------------------------------------- audit paths

  /** Climb from a node to the root, level by level; None when the path is too short or too long. */
  function Walk(h: TreeHasher, hash: Digest, node: nat, last: nat, path: seq<Digest>): Option<Digest>
    decreases last
  {
    if last == 0 then (if path == [] then Some(hash) else None)
    else if node % 2 == 1 then
      if path == [] then None
      else Walk(h, h.HashChildren(path[0], hash), node / 2, last / 2, path[1..])
    else if node < last then
      if path == [] then None
      else Walk(h, h.HashChildren(hash, path[0]), node / 2, last / 2, path[1..])
    else Walk(h, hash, node / 2, last / 2, path)
  }

  /** Some level below the root always needs a hash, so an empty path fails. */
  lemma {:induction false} WalkNeedsHashes(h: TreeHasher, hash: Digest, node: nat, last: nat)
    requires node <= last && last > 0
    ensures Walk(h, hash, node, last, []) == None
    decreases last
  {
    if node % 2 == 0 && node == last { WalkNeedsHashes(h, hash, node / 2, last / 2); }
  }

  method CalculateRootFromAuditPath(h: TreeHasher, leafHash: Digest, leafIndex: Uint32, auditPath: seq<Digest>,
                                    treeSize: Uint32)
    returns (r: Option<Digest>)
    requires leafIndex < treeSize
    ensures r == Walk(h, leafHash, leafIndex, treeSize - 1, auditPath)
  {
    var hash, node: Uint32, last: Uint32, pos := leafHash, leafIndex, treeSize - 1, 0;
    assert auditPath[0..] == auditPath;
    while last > 0
      invariant node <= last && pos <= |auditPath|
      invariant Walk(h, hash, node, last, auditPath[pos..]) == Walk(h, leafHash, leafIndex, treeSize - 1, auditPath)
    {
      if pos >= |auditPath| {
        WalkNeedsHashes(h, hash, node, last);
        assert auditPath[pos..] == [];
        return None;
      }
      assert auditPath[pos..][1..] == auditPath[pos + 1..];
      if node % 2 == 1 {
        hash := h.HashChildren(auditPath[pos], hash);
        pos := pos + 1;
      } else if node < last {
        hash := h.HashChildren(hash, auditPath[pos]);
        pos := pos + 1;
      }
      node := node / 2;
      last := last / 2;
    }
    if pos < |auditPath| { return None; }
    return Some(hash);
  }

  method VerifyLeafHashInclusion(h: TreeHasher, leafHash: Digest, leafIndex: Uint32, proof: seq<Digest>,
                                 rootHash: Digest, treeSize: Uint32)
    returns (ok: bool)
    ensures ok <==> leafIndex < treeSize && Walk(h, leafHash, leafIndex, treeSize - 1, proof) == Some(rootHash)
  {
    if treeSize <= leafIndex { return false; }
    var calculated := CalculateRootFromAuditPath(h, leafHash, leafIndex, proof, treeSize);
    return calculated == Some(rootHash);
  }

  /** The first step of a walk over the leaves d, seen from the level above. */
  lemma {:induction false} WalkStep(h: TreeHasher, d: seq<Digest>, m: nat, leaf: Digest, path: seq<Digest>)
    requires m < |d| && |d| >= 2
    ensures (|d| - 1) / 2 == |PairUp(h, d)| - 1 && m / 2 < |PairUp(h, d)|
    ensures Walk(h, leaf, m, |d| - 1, path) ==
            if Sibling(m, d) == [] then Walk(h, leaf, m / 2, |PairUp(h, d)| - 1, path)
            else if path == [] then None
            else Walk(h, Parent(h, m, leaf, path[0]), m / 2, |PairUp(h, d)| - 1, path[1..])
  {
  }

  function Parent(h: TreeHasher, m: nat, node: Digest, sibling: Digest): Digest {
    if m % 2 == 1 then h.HashChildren(sibling, node) else h.HashChildren(node, sibling)
  }

  function ParentInput(h: TreeHasher, m: nat, node: Digest, sibling: Digest): Bytes {
    if m % 2 == 1 then h.ChildrenInput(sibling, node) else h.ChildrenInput(node, sibling)
  }

  lemma {:induction false} ParentAt(h: TreeHasher, d: seq<Digest>, m: nat)
    requires m < |d| && |d| >= 2
    ensures m / 2 < |PairUp(h, d)|
    ensures PairUp(h, d)[m / 2] == if Sibling(m, d) == [] then d[m] else Parent(h, m, d[m], Sibling(m, d)[0])
  {
    PairUpAt(h, d, m / 2);
  }

  /** Every honest audit path is accepted. */
  lemma {:induction false} InclusionComplete(h: TreeHasher, d: seq<Digest>, m: nat)
    requires m < |d|
    ensures Walk(h, d[m], m, |d| - 1, Path(h, m, d)) == Some(Mth(h, d))
    decreases |d|
  {
    hide PairUp;
    if |d| > 1 {
      InclusionComplete(h, PairUp(h, d), m / 2);
      InclusionCompleteStep(h, d, m);
    }
  }

  lemma {:induction false} InclusionCompleteStep(h: TreeHasher, d: seq<Digest>, m: nat)
    requires m < |d| && |d| >= 2
    requires var p := PairUp(h, d); Walk(h, p[m / 2], m / 2, |p| - 1, Path(h, m / 2, p)) == Some(Mth(h, p))
    ensures Walk(h, d[m], m, |d| - 1, Path(h, m, d)) == Some(Mth(h, d))
  {
    hide Mth, PairUp, Path, Walk;
    var up := Path(h, m / 2, PairUp(h, d));
    PathByLevel(h, m, d);
    PairUpKeepsMth(h, d);
    ParentAt(h, d, m);
    WalkStep(h, d, m, d[m], Path(h, m, d));
    if Sibling(m, d) != [] {
      assert (Sibling(m, d) + up)[1..] == up;
    } else {
      assert [] + up == up;
    }
  }

  /** The pair of hash inputs on which an accepted dishonest path and the honest tree clash: on
      the way up, the lowest level at which both give one parent from different children. */
  function InclusionClash(h: TreeHasher, d: seq<Digest>, m: nat, leaf: Digest, path: seq<Digest>): (Bytes, Bytes)
    requires m < |d|
    decreases |d|
  {
    if |d| == 1 then ([], [])
    else
      var s := Sibling(m, d);
      if s == [] then InclusionClash(h, PairUp(h, d), m / 2, leaf, path)
      else if path == [] then ([], [])
      else if (leaf, path[0]) != (d[m], s[0]) && Parent(h, m, leaf, path[0]) == PairUp(h, d)[m / 2] then
        (ParentInput(h, m, leaf, path[0]), ParentInput(h, m, d[m], s[0]))
      else
        InclusionClash(h, PairUp(h, d), m / 2, Parent(h, m, leaf, path[0]), path[1..])
  }

  /** An accepted leaf and path are the honest ones, or a SHA-256 collision is at hand. */
  lemma {:induction false} InclusionSound(h: TreeHasher, d: seq<Digest>, m: nat, leaf: Digest, path: seq<Digest>)
    requires m < |d| && Walk(h, leaf, m, |d| - 1, path) == Some(Mth(h, d))
    ensures (leaf == d[m] && path == Path(h, m, d)) || Collides(h.sha, InclusionClash(h, d, m, leaf, path))
    decreases |d|
  {
    hide Mth, PairUp, Path, Walk, InclusionClash;
    if |d| == 1 {
      InclusionSoundLeaf(h, d, leaf, path);
    } else {
      var p := PairUp(h, d);
      PathByLevel(h, m, d);
      PairUpKeepsMth(h, d);
      ParentAt(h, d, m);
      WalkStep(h, d, m, leaf, path);
      var s := Sibling(m, d);
      if s == [] {
        InclusionSound(h, p, m / 2, leaf, path);
        InclusionClashUp(h, d, m, leaf, path);
        assert s + Path(h, m / 2, p) == Path(h, m / 2, p);
      } else {
        InclusionSound(h, p, m / 2, Parent(h, m, leaf, path[0]), path[1..]);
        InclusionSoundStep(h, d, m, leaf, path);
      }
    }
  }

  lemma {:induction false} InclusionSoundLeaf(h: TreeHasher, d: seq<Digest>, leaf: Digest, path: seq<Digest>)
    requires |d| == 1 && Walk(h, leaf, 0, 0, path) == Some(Mth(h, d))
    ensures leaf == d[0] && path == Path(h, 0, d)
  {
  }

  lemma {:induction false} InclusionClashUp(h: TreeHasher, d: seq<Digest>, m: nat, leaf: Digest, path: seq<Digest>)
    requires m < |d| && |d| >= 2 && Sibling(m, d) == []
    ensures InclusionClash(h, d, m, leaf, path) == InclusionClash(h, PairUp(h, d), m / 2, leaf, path)
  {
    hide Mth, PairUp, Path, Walk;
  }

  lemma {:induction false} InclusionSoundStep(h: TreeHasher, d: seq<Digest>, m: nat, leaf: Digest, path: seq<Digest>)
    requires m < |d| && |d| >= 2 && Sibling(m, d) != [] && path != []
    requires var p, up := PairUp(h, d), Parent(h, m, leaf, path[0]);
             (up == p[m / 2] && path[1..] == Path(h, m / 2, p)) ||
             Collides(h.sha, InclusionClash(h, p, m / 2, up, path[1..]))
    ensures (leaf == d[m] && path == Path(h, m, d)) || Collides(h.sha, InclusionClash(h, d, m, leaf, path))
  {
    hide Mth, PairUp, Path, Walk;
    PathByLevel(h, m, d);
    ParentAt(h, d, m);
    var s := Sibling(m, d);
    assert path == [path[0]] + path[1..];
    if (leaf, path[0]) != (d[m], s[0]) {
      if ParentInput(h, m, leaf, path[0]) == ParentInput(h, m, d[m], s[0]) {
        if m % 2 == 1 {
          ChildrenInputInjective(h, path[0], leaf, s[0], d[m]);
        } else {
          ChildrenInputInjective(h, leaf, path[0], d[m], s[0]);
        }
      }
    }
  }

  // ---------------------------------------------------------------- consistency proofs

  /** Climb with the old and the new hash at once: a left sibling is in both trees, a right one
      in the new tree only. */
  function Climb(h: TreeHasher, old_: Digest, new_: Digest, node: nat, last: nat, path: seq<Digest>)
    : Option<(Digest, Digest)>
    decreases last
  {
    if last == 0 then (if path == [] then Some((old_, new_)) else None)
    else if node % 2 == 1 then
      if path == [] then None
      else Climb(h, h.HashChildren(path[0], old_), h.HashChildren(path[0], new_), node / 2, last / 2, path[1..])
    else if node < last then
      if path == [] then None
      else Climb(h, old_, h.HashChildren(new_, path[0]), node / 2, last / 2, path[1..])
    else Climb(h, old_, new_, node / 2, last / 2, path)
  }

  /** Skip the levels at which the last old node is a right child. */
  function StripRight(node: nat, last: nat): (r: (nat, nat))
    requires node <= last
    ensures r.0 <= r.1 && r.0 % 2 == 0
    decreases node
  {
    if node % 2 == 1 then StripRight(node / 2, last / 2) else (node, last)
  }

  /** The verdict of VerifyConsistency. */
  predicate Consistent(h: TreeHasher, m: nat, n: nat, oldRoot: Digest, newRoot: Digest, proof: seq<Digest>) {
    && m <= n
    && (oldRoot == newRoot || m == 0 ||
        var (node, last) := StripRight(m - 1, n - 1);
        && proof != []
        && (if node != 0 then Climb(h, proof[0], proof[0], node, last, proof[1..])
            else Climb(h, oldRoot, oldRoot, 0, last, proof)) == Some((oldRoot, newRoot)))
  }

  method VerifyConsistency(h: TreeHasher, oldSize: Uint32, newSize: Uint32, oldRoot: Digest, newRoot: Digest,
                           proof: seq<Digest>)
    returns (ok: bool)
    ensures ok == Consistent(h, oldSize, newSize, oldRoot, newRoot, proof)
  {
    if oldSize > newSize { return false; }
    if oldRoot == newRoot { return true; }
    if oldSize == 0 { return true; }
    var node: Uint32, last: Uint32 := oldSize - 1, newSize - 1;
    while node % 2 == 1
      invariant node <= last && StripRight(node, last) == StripRight(oldSize - 1, newSize - 1)
      decreases node
    {
      node := node / 2;
      last := last / 2;
    }
    var pos, oldHash, newHash := 0, oldRoot, oldRoot;
    if pos >= |proof| { return false; }
    if node != 0 {
      newHash := proof[pos];
      oldHash := proof[pos];
      pos := pos + 1;
    }
    ghost var all := Climb(h, oldHash, newHash, node, last, proof[pos..]);
    assert proof[0..] == proof;
    while node != 0
      invariant node <= last && pos <= |proof|
      invariant Climb(h, oldHash, newHash, node, last, proof[pos..]) == all
    {
      if pos < |proof| { assert proof[pos..][1..] == proof[pos + 1..]; }
      if node % 2 == 1 {
        if pos >= |proof| { return false; }
        var next := proof[pos];
        pos := pos + 1;
        oldHash := h.HashChildren(next, oldHash);
        newHash := h.HashChildren(next, newHash);
      } else if node < last {
        if pos >= |proof| { return false; }
        var next := proof[pos];
        pos := pos + 1;
        newHash := h.HashChildren(newHash, next);
      }
      node := node / 2;
      last := last / 2;
    }
    while last != 0
      invariant pos <= |proof|
      invariant Climb(h, oldHash, newHash, 0, last, proof[pos..]) == all
    {
      if pos >= |proof| { return false; }
      assert proof[pos..][1..] == proof[pos + 1..];
      var next := proof[pos];
      pos := pos + 1;
      newHash := h.HashChildren(newHash, next);
      last := last / 2;
    }
    if newHash != newRoot { return false; }
    if oldHash != oldRoot { return false; }
    if pos != |proof| { return false; }
    return true;
  }

  /** The new half of a climb is an audit-path walk. */
  lemma {:induction false} ClimbIsWalk(h: TreeHasher, old_: Digest, new_: Digest, node: nat, last: nat,
                                       path: seq<Digest>)
    ensures var c := Climb(h, old_, new_, node, last, path);
            Walk(h, new_, node, last, path) == if c.None? then None else Some(c.value.1)
    decreases last
  {
    if last == 0 {
    } else if node % 2 == 1 {
      if path != [] {
        ClimbIsWalk(h, h.HashChildren(path[0], old_), h.HashChildren(path[0], new_), node / 2, last / 2, path[1..]);
      }
    } else if node < last {
      if path != [] { ClimbIsWalk(h, old_, h.HashChildren(new_, path[0]), node / 2, last / 2, path[1..]); }
    } else {
      ClimbIsWalk(h, old_, new_, node / 2, last / 2, path);
    }
  }

  /** The old tree's level: everything before node m is shared, node m itself may differ. */
  function OldLevel(d: seq<Digest>, m: nat, old_: Digest): seq<Digest>
    requires m < |d|
  {
    d[..m] + [old_]
  }

  lemma {:induction false} OldLevelUp(h: TreeHasher, d: seq<Digest>, m: nat, old_: Digest)
    requires m < |d|
    ensures m / 2 < |PairUp(h, d)|
    ensures PairUp(h, OldLevel(d, m, old_)) ==
            OldLevel(PairUp(h, d), m / 2, if m % 2 == 1 then h.HashChildren(d[m - 1], old_) else old_)
  {
    var e := OldLevel(d, m, old_);
    var q := m - m % 2;
    PairUpSplit(h, e, q);
    PairUpPrefix(h, d, q);
    assert e[..q] == d[..q];
    if m % 2 == 1 {
      assert e[q..] == [d[m - 1], old_];
      assert e[q..][2..] == [];
    } else {
      assert e[q..] == [old_];
    }
    assert PairUp(h, e) == PairUp(h, e)[..q / 2] + PairUp(h, e)[q / 2..];
    assert q / 2 == m / 2;
  }

  /** Along the honest path the old half of a climb ends in the old tree's hash. */
  lemma {:induction false} ClimbHonest(h: TreeHasher, d: seq<Digest>, m: nat, old_: Digest)
    requires m < |d|
    ensures Climb(h, old_, d[m], m, |d| - 1, Path(h, m, d)) == Some((Mth(h, OldLevel(d, m, old_)), Mth(h, d)))
    decreases |d|
  {
    hide PairUp;
    if |d| == 1 {
      assert OldLevel(d, m, old_) == [old_];
    } else {
      ClimbHonest(h, PairUp(h, d), m / 2, if m % 2 == 1 then h.HashChildren(d[m - 1], old_) else old_);
      ClimbHonestStep(h, d, m, old_);
    }
  }

  lemma {:induction false} ClimbHonestStep(h: TreeHasher, d: seq<Digest>, m: nat, old_: Digest)
    requires m < |d| && |d| >= 2 && m / 2 < |PairUp(h, d)|
    requires var p := PairUp(h, d);
             var up := if m % 2 == 1 then h.HashChildren(d[m - 1], old_) else old_;
             Climb(h, up, p[m / 2], m / 2, |p| - 1, Path(h, m / 2, p)) ==
             Some((Mth(h, OldLevel(p, m / 2, up)), Mth(h, p)))
    ensures Climb(h, old_, d[m], m, |d| - 1, Path(h, m, d)) == Some((Mth(h, OldLevel(d, m, old_)), Mth(h, d)))
  {
    hide Mth, PairUp, Path, Climb, OldLevel;
    var up := Path(h, m / 2, PairUp(h, d));
    PathByLevel(h, m, d);
    PairUpKeepsMth(h, d);
    PairUpKeepsMth(h, OldLevel(d, m, old_));
    OldLevelUp(h, d, m, old_);
    ParentAt(h, d, m);
    ClimbStep(h, d, m, old_, d[m], Path(h, m, d));
    if Sibling(m, d) != [] {
      assert (Sibling(m, d) + up)[1..] == up;
    } else {
      assert [] + up == up;
    }
  }

  lemma {:induction false} ClimbStep(h: TreeHasher, d: seq<Digest>, m: nat, old_: Digest, new_: Digest,
                                     path: seq<Digest>)
    requires m < |d| && |d| >= 2
    ensures (|d| - 1) / 2 == |PairUp(h, d)| - 1
    ensures Sibling(m, d) == [] ==>
              Climb(h, old_, new_, m, |d| - 1, path) == Climb(h, old_, new_, m / 2, |PairUp(h, d)| - 1, path)
    ensures Sibling(m, d) != [] && path != [] ==>
              Climb(h, old_, new_, m, |d| - 1, path) ==
              Climb(h, if m % 2 == 1 then h.HashChildren(path[0], old_) else old_, Parent(h, m, new_, path[0]),
                    m / 2, |PairUp(h, d)| - 1, path[1..])
  {
  }

  /** An even old size: the verdict, the trees and the proof are those of the level above. */
  lemma {:induction false} ConsistentUp(h: TreeHasher, d: seq<Digest>, m: nat, oldRoot: Digest, newRoot: Digest,
                                        proof: seq<Digest>)
    requires 0 < 2 * m <= |d|
    ensures var p := PairUp(h, d);
            && m <= |p| < |d|
            && Consistent(h, 2 * m, |d|, oldRoot, newRoot, proof) == Consistent(h, m, |p|, oldRoot, newRoot, proof)
            && Mth(h, p) == Mth(h, d) && Mth(h, p[..m]) == Mth(h, d[..2 * m]) && Proof(h, m, p) == Proof(h, 2 * m, d)
  {
    hide Mth, SubProof, Climb, PairUp, StripRight;
    StripUp(m, |d|);
    PairUpKeepsMth(h, d);
    PairUpSplit(h, d, 2 * m);
    PairUpKeepsMth(h, d[..2 * m]);
    SubProofEven(h, m, d, true);
  }

  lemma {:induction false} StripUp(m: nat, n: nat)
    requires 0 < 2 * m <= n
    ensures 2 * m / 2 == m && m <= (n + 1) / 2 < n + 1 && (n > 1 ==> (n + 1) / 2 < n)
    ensures StripRight(2 * m - 1, n - 1) == StripRight(m - 1, (n + 1) / 2 - 1)
  {
    assert (2 * m - 1) % 2 == 1 && (2 * m - 1) / 2 == m - 1 && (n - 1) / 2 == (n + 1) / 2 - 1;
  }

  /** Where an accepted dishonest consistency proof clashes with the honest tree. */
  function ConsistencyClash(h: TreeHasher, d: seq<Digest>, m: nat, oldRoot: Digest, proof: seq<Digest>): (Bytes, Bytes)
    requires 0 < m <= |d|
    decreases |d|
  {
    if m % 2 == 0 then ConsistencyClash(h, PairUp(h, d), m / 2, oldRoot, proof)
    else if m == 1 then InclusionClash(h, d, 0, oldRoot, proof)
    else if proof == [] then ([], [])
    else InclusionClash(h, d, m - 1, proof[0], proof[1..])
  }

  /** Every honest consistency proof is accepted, whatever the two sizes. */
  lemma {:induction false} ConsistencyComplete(h: TreeHasher, d: seq<Digest>, m: nat)
    requires 0 < m <= |d|
    ensures Consistent(h, m, |d|, Mth(h, d[..m]), Mth(h, d), Proof(h, m, d))
    decreases |d|
  {
    hide Mth, SubProof, Climb, PairUp;
    if m == |d| {
      assert d[..m] == d;
    } else if m % 2 == 0 {
      ConsistentUp(h, d, m / 2, Mth(h, d[..m]), Mth(h, d), Proof(h, m, d));
      ConsistencyComplete(h, PairUp(h, d), m / 2);
    } else {
      ConsistencyCompleteOdd(h, d, m);
    }
  }

  lemma {:induction false} ConsistencyCompleteOdd(h: TreeHasher, d: seq<Digest>, m: nat)
    requires 0 < m < |d| && m % 2 == 1
    ensures Consistent(h, m, |d|, Mth(h, d[..m]), Mth(h, d), Proof(h, m, d))
  {
    hide Mth, Climb, Path, SubProof;
    SubProofOdd(h, m, d, true);
    ClimbHonest(h, d, m - 1, d[m - 1]);
    assert OldLevel(d, m - 1, d[m - 1]) == d[..m];
    if m == 1 {
      assert [] + Path(h, 0, d) == Path(h, 0, d);
      SingleRoot(h, d);
      PathNonempty(h, 0, d);
    } else {
      assert ([d[m - 1]] + Path(h, m - 1, d))[1..] == Path(h, m - 1, d);
    }
  }

  lemma {:induction false} SingleRoot(h: TreeHasher, d: seq<Digest>)
    requires |d| >= 1
    ensures Mth(h, d[..1]) == d[0]
  {
  }

  lemma {:induction false} PathNonempty(h: TreeHasher, m: nat, d: seq<Digest>)
    requires m < |d| && |d| >= 2
    ensures Path(h, m, d) != []
  {
  }

  /** An accepted proof between different roots is the honest proof and the old root is the true
      root of the prefix, or a SHA-256 collision is at hand. */
  lemma {:induction false} ConsistencySound(h: TreeHasher, d: seq<Digest>, m: nat, oldRoot: Digest, proof: seq<Digest>)
    requires 0 < m <= |d| && oldRoot != Mth(h, d)
    requires Consistent(h, m, |d|, oldRoot, Mth(h, d), proof)
    ensures (m < |d| && oldRoot == Mth(h, d[..m]) && proof == Proof(h, m, d)) ||
            Collides(h.sha, ConsistencyClash(h, d, m, oldRoot, proof))
    decreases |d|
  {
    if m % 2 == 0 {
      ConsistentUp(h, d, m / 2, oldRoot, Mth(h, d), proof);
      ConsistencySound(h, PairUp(h, d), m / 2, oldRoot, proof);
    } else {
      ConsistencySoundOdd(h, d, m, oldRoot, proof);
    }
  }

  lemma {:induction false} ConsistencySoundOdd(h: TreeHasher, d: seq<Digest>, m: nat, oldRoot: Digest,
                                               proof: seq<Digest>)
    requires 0 < m <= |d| && m % 2 == 1 && oldRoot != Mth(h, d)
    requires Consistent(h, m, |d|, oldRoot, Mth(h, d), proof)
    ensures (m < |d| && oldRoot == Mth(h, d[..m]) && proof == Proof(h, m, d)) ||
            Collides(h.sha, ConsistencyClash(h, d, m, oldRoot, proof))
  {
    hide Mth, Climb, Path, SubProof, Walk, PairUp;
    var leaf, path := if m == 1 then oldRoot else proof[0], if m == 1 then proof else proof[1..];
    ClimbIsWalk(h, leaf, leaf, m - 1, |d| - 1, path);
    InclusionSound(h, d, m - 1, leaf, path);
    if leaf == d[m - 1] && path == Path(h, m - 1, d) {
      ClimbHonest(h, d, m - 1, leaf);
      assert OldLevel(d, m - 1, leaf) == d[..m];
      assert oldRoot == Mth(h, d[..m]);
      assert d[..|d|] == d;
      SubProofOdd(h, m, d, true);
      if m == 1 {
        assert [] + Path(h, 0, d) == Path(h, 0, d);
      } else {
        assert proof == [proof[0]] + proof[1..];
      }
    }
  }

  /** The whole verdict, short of a collision at the clash. "Accepted means the old root is the
      root of the prefix" fails exactly on the two early returns: an old size of zero and equal
      roots are accepted with any proof. */
  lemma {:induction false} ConsistencyExact(h: TreeHasher, d: seq<Digest>, m: nat, oldRoot: Digest, proof: seq<Digest>)
    requires m <= |d| && (m > 0 ==> !Collides(h.sha, ConsistencyClash(h, d, m, oldRoot, proof)))
    ensures Consistent(h, m, |d|, oldRoot, Mth(h, d), proof) <==>
            m == 0 || oldRoot == Mth(h, d) || (oldRoot == Mth(h, d[..m]) && proof == Proof(h, m, d))
  {
    hide Mth, SubProof, Climb, ConsistencyClash;
    if 0 < m && oldRoot != Mth(h, d) {
      ConsistencyComplete(h, d, m);
      if Consistent(h, m, |d|, oldRoot, Mth(h, d), proof) {
        ConsistencySound(h, d, m, oldRoot, proof);
      }
    }
  }
}
