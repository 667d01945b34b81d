/** trie/proof.go: the proof of a key is the encodings met on its way down; the verifier walks them
    against the root hash. */
module TrieProof {
  import opened Words
  import opened TrieEncoding
  import opened TrieShape
  import opened TrieNode
  import opened TrieStore
  import opened TrieHasher
  import Rlp

  // ---------------------------------------------------------------- the proof of a key

  /** The nodes on the way of a key, the one it is missing from included. */
  function Visited(t: Tree, key: Key): (r: seq<Tree>)
    requires Fits(t, key)
    ensures forall i :: 0 <= i < |r| ==> Canon(r[i])
    decreases t
  {
    if key == [] || t.Nil? then []
    else match t
      case Short(k, c) =>
        if |k| <= |key| && key[..|k|] == k then
          PrefixLenUnique(key, k, |k|);
          FitsBelowShort(k, c, key);
          [t] + Visited(c, key[|k|..])
        else [t]
      case Full(cs) =>
        FitsBelowFull(cs, key);
        [t] + Visited(cs[key[0]], key[1..])
      case Value(_) => []
  }

  /** The encodings a verifier needs: those referred to by hash, and the first. */
  function Encodings(h: Hasher, ts: seq<Tree>, first: bool): seq<Bytes>
    requires forall i :: 0 <= i < |ts| ==> Canon(ts[i])
    decreases ts
  {
    if ts == [] then []
    else (if first || Big(h, ts[0]) then [NodeEnc(h, ts[0])] else []) + Encodings(h, ts[1..], false)
  }

  function ProofOf(h: Hasher, t: Tree, key: Key): seq<Bytes>
    requires Fits(t, key)
  {
    Encodings(h, Visited(t, key), true)
  }

  /** The nodes met stand for the subtrees met. */
  predicate Listed(h: Hasher, db: Db, nodes: seq<Node>, trees: seq<Tree>) {
    |nodes| == |trees| && forall i :: 0 <= i < |nodes| ==>
      Canon(trees[i]) && Rep(h, db, nodes[i], trees[i], true) && (nodes[i].ShortNode? || nodes[i].FullNode?)
  }

  lemma {:induction false} ListedMore(h: Hasher, db: Db, nodes: seq<Node>, trees: seq<Tree>, n: Node, t: Tree)
    requires Listed(h, db, nodes, trees) && Canon(t) && Rep(h, db, n, t, true) && (n.ShortNode? || n.FullNode?)
    ensures Listed(h, db, nodes + [n], trees + [t])
  {
    hide Canon, Rep;
  }

  lemma {:induction false} ListedCanon(h: Hasher, db: Db, nodes: seq<Node>, trees: seq<Tree>)
    requires Listed(h, db, nodes, trees)
    ensures forall i :: 0 <= i < |trees| ==> Canon(trees[i])
  {
    hide Canon, Rep;
  }

  lemma {:induction false} ListedNone(h: Hasher, db: Db)
    ensures Listed(h, db, [], [])
  {
  }

  /** The nodes met on the way of a key, up to the first hash the database does not have. */
  ghost function Met(h: Hasher, db: Db, n: Node, key: Key, t: Tree): (r: seq<Tree>)
    requires Rep(h, db, n, t, true) && Fits(t, key)
    ensures forall i :: 0 <= i < |r| ==> Canon(r[i])
    decreases t, n.HashNode?
  {
    if key == [] then []
    else match n
      case NilNode => []
      case ValueNode(_) => []
      case ShortNode(k, c, _) =>
        if |k| <= |key| && key[..|k|] == k then
          ShortDown(h, db, n, key, t);
          [t] + Met(h, db, c, key[|k|..], t.child)
        else [t]
      case FullNode(cs, _) =>
        FullDown(h, db, n, key, t);
        [t] + Met(h, db, cs[key[0]], key[1..], t.children[key[0]])
      case HashNode(x) =>
        ResolveOk(h, db, x, t, false);
        if x !in db then [] else RootRep(h, db, Shallow(h, t, Some(x)), t); Met(h, db, Shallow(h, t, Some(x)), key, t)
  }

  /** Prove: collect the nodes, then encode those that are stored by hash. A hash that cannot be
      resolved is logged and ends the walk. */
  method Prove(h: Hasher, db: Db, root: Node, keyBytes: Bytes, ghost t: Tree) returns (proof: seq<Bytes>)
    requires CanonOrNil(t) && Rep(h, db, root, t, true)
    ensures Fits(t, KeyHex(keyBytes)) && proof == Encodings(h, Met(h, db, root, KeyHex(keyBytes), t), true)
  {
    hide Canon, Rep, Storable, Honest, Listed, Fits, Met, Resolve;
    RootFits(t, keyBytes);
    ListedNone(h, db);
    var key := KeyBytesToHex(keyBytes);
    var nodes: seq<Node>, tn := [], root;
    ghost var trees: seq<Tree>, at := [], t;
    assert [] + Met(h, db, root, key, t) == Met(h, db, root, key, t);
    while |key| > 0 && !tn.NilNode?
      invariant Fits(at, key) && Rep(h, db, tn, at, true)
      invariant trees + Met(h, db, tn, key, at) == Met(h, db, root, KeyHex(keyBytes), t)
      invariant Listed(h, db, nodes, trees)
      decreases |key| + (if tn.NilNode? then 0 else 1), tn.HashNode?
    {
      match tn
      case ShortNode(k, c, f) =>
        ProveShort(h, db, tn, key, at);
        ListedMore(h, db, nodes, trees, tn, at);
        if |k| <= |key| && key[..|k|] == k {
          Assoc(trees, [at], Met(h, db, c, key[|k|..], at.child));
          nodes, trees := nodes + [tn], trees + [at];
          key, tn, at := key[|k|..], c, at.child;
        } else {
          FitsKey(at, key);
          nodes, trees := nodes + [tn], trees + [at];
          tn, at := NilNode, Nil;
          NilMet(h, db, key);
          assert trees + [] == trees;
        }
      case FullNode(cs, f) =>
        ProveFull(h, db, tn, key, at);
        ListedMore(h, db, nodes, trees, tn, at);
        Assoc(trees, [at], Met(h, db, cs[key[0]], key[1..], at.children[key[0]]));
        nodes, trees := nodes + [tn], trees + [at];
        tn, at := cs[key[0]], at.children[key[0]];
        key := key[1..];
      case HashNode(x) =>
        ProveHash(h, db, tn, key, at);
        var m := Resolve(db, x);
        if m.Ok? {
          tn := m.value;
        } else {
          FitsKey(at, key);
          NilMet(h, db, key);
          tn, at := NilNode, Nil;
        }
      case ValueNode(_) =>
        ValueNodeOnly(h, db, tn, key, at);
        assert false;
    }
    MetEnd(h, db, tn, key, at);
    assert trees + [] == trees;
    ListedCanon(h, db, nodes, trees);
    proof := EncodeNodes(h, nodes, db, trees);
  }

  lemma {:induction false} RootFits(t: Tree, keyBytes: Bytes)
    requires CanonOrNil(t)
    ensures Fits(t, KeyHex(keyBytes)) && Terminated(KeyHex(keyBytes))
  {
  }

  lemma {:induction false} FitsKey(t: Tree, key: Key)
    requires Fits(t, key)
    ensures key == [] || Terminated(key)
  {
  }

  lemma {:induction false} NilMet(h: Hasher, db: Db, key: Key)
    requires key == [] || Terminated(key)
    ensures Fits(Nil, key) && Rep(h, db, NilNode, Nil, true) && Met(h, db, NilNode, key, Nil) == []
  {
    NilRep(h, db, false);
    RootRep(h, db, NilNode, Nil);
  }

  lemma {:induction false} ProveShort(h: Hasher, db: Db, n: Node, key: Key, t: Tree)
    requires n.ShortNode? && key != [] && Fits(t, key) && Rep(h, db, n, t, true)
    ensures t.Short? && Canon(t) && t.key == n.key && |n.key| > 0
    ensures if |n.key| <= |key| && key[..|n.key|] == n.key
            then
              && Fits(t.child, key[|n.key|..]) && Rep(h, db, n.val, t.child, true)
              && Met(h, db, n, key, t) == [t] + Met(h, db, n.val, key[|n.key|..], t.child)
            else Met(h, db, n, key, t) == [t]
  {
    Bounded(t.key, t.child);
    if n.key <= key { ShortDown(h, db, n, key, t); }
  }

  lemma {:induction false} ProveFull(h: Hasher, db: Db, n: Node, key: Key, t: Tree)
    requires n.FullNode? && key != [] && Fits(t, key) && Rep(h, db, n, t, true)
    ensures t.Full? && Canon(t) && |t.children| == |n.children| == 17 && key[0] < 17
    ensures Fits(t.children[key[0]], key[1..]) && Rep(h, db, n.children[key[0]], t.children[key[0]], true)
    ensures Met(h, db, n, key, t) == [t] + Met(h, db, n.children[key[0]], key[1..], t.children[key[0]])
  {
    FullDown(h, db, n, key, t);
  }

  lemma {:induction false} ProveHash(h: Hasher, db: Db, n: Node, key: Key, t: Tree)
    requires n.HashNode? && key != [] && Fits(t, key) && Rep(h, db, n, t, true)
    ensures var r := Resolve(db, n.h);
            if r.Ok? then
              && !r.value.HashNode? && !r.value.NilNode? && Rep(h, db, r.value, t, true)
              && Met(h, db, n, key, t) == Met(h, db, r.value, key, t)
            else r.Missing? && Met(h, db, n, key, t) == []
  {
    ResolveOk(h, db, n.h, t, false);
    RootRep(h, db, Shallow(h, t, Some(n.h)), t);
  }

  lemma {:induction false} ValueNodeOnly(h: Hasher, db: Db, n: Node, key: Key, t: Tree)
    requires n.ValueNode? && Rep(h, db, n, t, true) && Fits(t, key)
    ensures key == []
  {
  }

  lemma {:induction false} MetEnd(h: Hasher, db: Db, n: Node, key: Key, t: Tree)
    requires Fits(t, key) && Rep(h, db, n, t, true) && (key == [] || n.NilNode?)
    ensures Met(h, db, n, key, t) == []
  {
  }

  /** The nodes met are the first of those on the way of the key, and all of them exactly when a
      lookup of the key misses no entry; the next one is else a node referred to by hash. */
  lemma {:induction false} MetExact(h: Hasher, db: Db, n: Node, key: Key, t: Tree)
    requires Rep(h, db, n, t, true) && Fits(t, key)
    ensures var met, all := Met(h, db, n, key, t), Visited(t, key);
            && met <= all && (TryGet(h, db, n, key, t).Ok? <==> met == all)
            && (met != all ==> Big(h, all[|met|]))
    decreases t, n.HashNode?
  {
    hide Canon, Rep, Fits, Big, Resolve, Shallow;
    if key == [] {
      EmptyKey(h, db, n, t);
    } else {
      match n
      case NilNode =>
        NilMeans(h, db, t);
      case ValueNode(_) =>
        ValueNodeOnly(h, db, n, key, t);
      case ShortNode(k, c, _) =>
        ShortTerminated(h, db, n, key, t);
        if |k| <= |key| && key[..|k|] == k {
          ShortDown(h, db, n, key, t);
          MetExact(h, db, c, key[|k|..], t.child);
        }
      case FullNode(cs, _) =>
        FullDown(h, db, n, key, t);
        MetExact(h, db, cs[key[0]], key[1..], t.children[key[0]]);
      case HashNode(x) =>
        MetHash(h, db, n, key, t);
        if x in db { MetExact(h, db, Shallow(h, t, Some(x)), key, t); }
    }
  }

  lemma {:induction false} EmptyKey(h: Hasher, db: Db, n: Node, t: Tree)
    requires Rep(h, db, n, t, true) && Fits(t, [])
    ensures n.NilNode? || n.ValueNode?
  {
  }

  lemma {:induction false} NilMeans(h: Hasher, db: Db, t: Tree)
    requires Rep(h, db, NilNode, t, true)
    ensures t.Nil?
  {
  }

  lemma {:induction false} MetHash(h: Hasher, db: Db, n: Node, key: Key, t: Tree)
    requires n.HashNode? && key != [] && Fits(t, key) && Rep(h, db, n, t, true)
    ensures Big(h, t) && |Visited(t, key)| > 0 && Visited(t, key)[0] == t && !Shallow(h, t, Some(n.h)).HashNode?
    ensures Rep(h, db, Shallow(h, t, Some(n.h)), t, true)
    ensures if n.h in db
            then
              && Met(h, db, n, key, t) == Met(h, db, Shallow(h, t, Some(n.h)), key, t)
              && TryGet(h, db, n, key, t) == TryGet(h, db, Shallow(h, t, Some(n.h)), key, t)
            else Met(h, db, n, key, t) == [] && TryGet(h, db, n, key, t) == Missing
  {
    ResolveOk(h, db, n.h, t, false);
    RootRep(h, db, Shallow(h, t, Some(n.h)), t);
    hide Rep;
  }

  /** The second loop of Prove. */
  method EncodeNodes(h: Hasher, nodes: seq<Node>, ghost db: Db, ghost trees: seq<Tree>) returns (proof: seq<Bytes>)
    requires Listed(h, db, nodes, trees)
    ensures proof == Encodings(h, trees, true)
  {
    hide Canon, Rep, Collapsed, Encodings, NodeItem, Rlp.Encode;
    ListedCanon(h, db, nodes, trees);
    proof := [];
    assert trees[0..] == trees;
    for i := 0 to |nodes|
      invariant proof + Encodings(h, trees[i..], i == 0) == Encodings(h, trees, true)
    {
      CollapsedOk(h, db, nodes[i], trees[i]);
      FirstEncoding(h, trees[i..], i == 0);
      var enc := Rlp.Encode(Collapsed(h, nodes[i], db, trees[i]).ref);
      assert trees[i..][0] == trees[i] && trees[i..][1..] == trees[i + 1..];
      if |enc| >= 32 || i == 0 {
        Assoc(proof, [enc], Encodings(h, trees[i + 1..], false));
        proof := proof + [enc];
      } else {
        assert [] + Encodings(h, trees[i + 1..], false) == Encodings(h, trees[i + 1..], false);
      }
    }
    NoEncoding(h);
    assert proof + [] == proof;
  }

  lemma {:induction false} NoEncoding(h: Hasher)
    ensures forall first :: Encodings(h, [], first) == []
  {
  }

  lemma {:induction false} FirstEncoding(h: Hasher, ts: seq<Tree>, first: bool)
    requires ts != [] && forall i :: 0 <= i < |ts| ==> Canon(ts[i])
    ensures Encodings(h, ts, first) ==
            (if first || |Rlp.Encode(NodeItem(h, ts[0]))| >= 32 then [Rlp.Encode(NodeItem(h, ts[0]))] else []) +
            Encodings(h, ts[1..], false)
  {
    hide Canon, NodeItem, Rlp.Encode;
  }

  // ---------------------------------------------------------------- the verifier

  /** Where a walk inside one decoded node ends: key left and a nil, value or hash node. */
  datatype Walked = Got(key: Key, node: Node) | OffKey

  function Walk(n: Node, key: Key): Walked
    decreases n
  {
    match n
    case ShortNode(k, c, _) => if |key| < |k| || key[..|k|] != k then Got([], NilNode) else Walk(c, key[|k|..])
    case FullNode(cs, _) => if |key| == 0 || key[0] >= |cs| then OffKey else Walk(cs[key[0]], key[1..])
    case HashNode(_) => Got(key, n)
    case NilNode => Got(key, n)
    case ValueNode(_) => Got([], n)
  }

  /** The loop of get. */
  method GetInNode(n: Node, key: Key) returns (r: Walked)
    ensures r == Walk(n, key)
  {
    var tn, rest := n, key;
    while true
      invariant Walk(tn, rest) == Walk(n, key)
      decreases tn
    {
      match tn
      case ShortNode(k, c, _) =>
        if |rest| < |k| || rest[..|k|] != k { return Got([], NilNode); }
        tn, rest := c, rest[|k|..];
      case FullNode(cs, _) =>
        if |rest| == 0 || rest[0] >= |cs| { return OffKey; }
        tn, rest := cs[rest[0]], rest[1..];
      case HashNode(_) => return Got(rest, tn);
      case NilNode => return Got(rest, tn);
      case ValueNode(_) => return Got([], tn);
    }
  }

  /** What the verifier reports: the value, proven absence, an error, or an index panic. */
  datatype Verdict = Present(v: Bytes) | Absent | Invalid | Panics

  function Verify(h: Hasher, root: Bytes, key: Key, proof: seq<Bytes>): Verdict
    decreases |proof|
  {
    if proof == [] then Invalid
    else if h(proof[0]) != root then Invalid
    else
      var n := DecodeNode(Some(root), proof[0]);
      if n.Failed? then Invalid
      else if n.Panicked? then Panics
      else
        var w := Walk(n.value, key);
        if w.OffKey? then Panics
        else match w.node
          case NilNode => if |proof| == 1 then Absent else Invalid
          case ValueNode(v) => if |proof| == 1 then Present(v) else Invalid
          case HashNode(x) => Verify(h, x, w.key, proof[1..])
          case _ => Invalid
  }

  method VerifyProof(h: Hasher, rootHash: Digest, keyBytes: Bytes, proof: seq<Bytes>) returns (r: Verdict)
    ensures r == Verify(h, rootHash, KeyHex(keyBytes), proof)
  {
    var key := KeyBytesToHex(keyBytes);
    var root: Bytes := rootHash;
    for i := 0 to |proof|
      invariant Verify(h, root, key, proof[i..]) == Verify(h, rootHash, KeyHex(keyBytes), proof)
    {
      assert proof[i..][0] == proof[i] && proof[i..][1..] == proof[i + 1..];
      if h(proof[i]) != root { return Invalid; }
      var n := DecodeNode(Some(root), proof[i]);
      if n.Failed? { return Invalid; }
      if n.Panicked? { return Panics; }
      WalkEnds(n.value, key);
      var w := GetInNode(n.value, key);
      if w.OffKey? { return Panics; }
      match w.node
      case NilNode =>
        if i != |proof| - 1 { return Invalid; }
        return Absent;
      case HashNode(x) =>
        key, root := w.key, x;
      case ValueNode(v) =>
        if i != |proof| - 1 { return Invalid; }
        return Present(v);
    }
    return Invalid;
  }

  lemma {:induction false} WalkEnds(n: Node, key: Key)
    ensures var w := Walk(n, key); w.Got? ==> w.node.NilNode? || w.node.ValueNode? || w.node.HashNode?
    decreases n
  {
    match n
    case ShortNode(k, c, _) => if !(|key| < |k| || key[..|k|] != k) { WalkEnds(c, key[|k|..]); }
    case FullNode(cs, _) => if !(|key| == 0 || key[0] >= |cs|) { WalkEnds(cs[key[0]], key[1..]); }
    case HashNode(_) =>
    case NilNode =>
    case ValueNode(_) =>
  }

  // ---------------------------------------------------------------- walks through embedded nodes

  /** The trie at which a walk from a reference ends: the first one referred to by hash, or the end
      of the key. */
  function Landing(h: Hasher, t: Tree, key: Key): (r: (Tree, Key))
    requires Fits(t, key)
    ensures Fits(r.0, r.1) && |r.1| <= |key| && (Canon(r.0) ==> Big(h, r.0))
    decreases t, 1
  {
    if t.Nil? || t.Value? || Big(h, t) then (t, key) else Below(h, t, key)
  }

  function Below(h: Hasher, t: Tree, key: Key): (r: (Tree, Key))
    requires Fits(t, key) && Canon(t) && key != []
    ensures Fits(r.0, r.1) && |r.1| < |key| && (Canon(r.0) ==> Big(h, r.0))
    decreases t, 0
  {
    match t
    case Short(k, c) =>
      if |k| <= |key| && key[..|k|] == k then
        Bounded(k, c);
        PrefixLenUnique(key, k, |k|);
        FitsBelowShort(k, c, key);
        Landing(h, c, key[|k|..])
      else (Nil, [])
    case Full(cs) =>
      FitsBelowFull(cs, key);
      Landing(h, cs[key[0]], key[1..])
  }

  /** The verdict on a key that its trie deserves. */
  function Answer(t: Tree, key: Key): Verdict {
    match Get(t, key)
    case Some(v) => Present(v)
    case None => Absent
  }

  /** A walk lands on the reference of its landing, with the same answer and the same proof ahead. */
  lemma {:induction false} LandingOk(h: Hasher, t: Tree, key: Key)
    requires Fits(t, key) && Slottable(t)
    ensures var (s, r) := Landing(h, t, key);
            && Slottable(s) && Walk(RefNode(h, t), key).Got? && Walk(RefNode(h, t), key).node == RefNode(h, s)
            && (Canon(s) ==> Walk(RefNode(h, t), key).key == r)
            && Get(t, key) == Get(s, r)
            && Encodings(h, Visited(t, key), false) == Encodings(h, Visited(s, r), false)
    decreases t, 1
  {
    if !(t.Nil? || t.Value? || Big(h, t)) {
      BelowOk(h, t, key, None);
      EncodingsStep(h, t, key);
    }
  }

  lemma {:induction false} BelowOk(h: Hasher, t: Tree, key: Key, hash: Option<Bytes>)
    requires Fits(t, key) && Canon(t) && key != []
    ensures var (s, r) := Below(h, t, key);
            && Slottable(s) && Walk(Shallow(h, t, hash), key).Got?
            && Walk(Shallow(h, t, hash), key).node == RefNode(h, s)
            && (Canon(s) ==> Walk(Shallow(h, t, hash), key).key == r)
            && Get(t, key) == Get(s, r)
            && |Visited(t, key)| > 0 && Visited(t, key)[0] == t
            && Encodings(h, Visited(t, key)[1..], false) == Encodings(h, Visited(s, r), false)
    decreases t, 0
  {
    hide Encodings, Landing, Canon;
    NodeKinds(t);
    match t
    case Short(k, c) =>
      KeyWellFormed(k, c);
      if |k| <= |key| && key[..|k|] == k {
        Bounded(k, c);
        PrefixLenUnique(key, k, |k|);
        FitsBelowShort(k, c, key);
        LandingOk(h, c, key[|k|..]);
        assert Visited(t, key)[1..] == Visited(c, key[|k|..]);
      } else {
        assert Visited(t, key)[1..] == [];
      }
    case Full(cs) =>
      FullSlottable(cs);
      FitsBelowFull(cs, key);
      RefNodesAt(h, cs, key[0]);
      LandingOk(h, cs[key[0]], key[1..]);
      assert Visited(t, key)[1..] == Visited(cs[key[0]], key[1..]);
  }

  lemma {:induction false} EncodingsStep(h: Hasher, t: Tree, key: Key)
    requires Fits(t, key) && Canon(t) && !Big(h, t) && |Visited(t, key)| > 0 && Visited(t, key)[0] == t
    ensures Encodings(h, Visited(t, key), false) == Encodings(h, Visited(t, key)[1..], false)
  {
    assert [] + Encodings(h, Visited(t, key)[1..], false) == Encodings(h, Visited(t, key)[1..], false);
  }

  lemma {:induction false} LandingStorable(h: Hasher, t: Tree, key: Key)
    requires Fits(t, key) && (Canon(t) ==> Storable(h, t))
    ensures var s := Landing(h, t, key).0; Canon(s) ==> Storable(h, s)
    decreases t, 1
  {
    if !(t.Nil? || t.Value? || Big(h, t)) { BelowStorable(h, t, key); }
  }

  lemma {:induction false} BelowStorable(h: Hasher, t: Tree, key: Key)
    requires Fits(t, key) && Canon(t) && Storable(h, t) && key != []
    ensures var s := Below(h, t, key).0; Canon(s) ==> Storable(h, s)
    decreases t, 0
  {
    match t
    case Short(k, c) =>
      if |k| <= |key| && key[..|k|] == k {
        PrefixLenUnique(key, k, |k|);
        FitsBelowShort(k, c, key);
        LandingStorable(h, c, key[|k|..]);
      }
    case Full(cs) =>
      FitsBelowFull(cs, key);
      LandingStorable(h, cs[key[0]], key[1..]);
  }

  /** The honest proof is the node's encoding and then the honest proof of where the walk lands. */
  lemma {:induction false} ProofStep(h: Hasher, t: Tree, key: Key)
    requires Fits(t, key) && Canon(t) && Storable(h, t) && key != []
    ensures var (s, r) := Below(h, t, key);
            && ProofOf(h, t, key) == [NodeEnc(h, t)] + (if Canon(s) then ProofOf(h, s, r) else [])
            && (Canon(s) ==> r != [] && Storable(h, s)) && Answer(t, key) == Answer(s, r)
            && (forall proof :: Verify(h, NodeHash(h, t), key, [NodeEnc(h, t)] + proof) ==
                                if Canon(s) then Verify(h, NodeHash(h, s), r, proof)
                                else if proof == [] then Answer(s, r) else Invalid)
  {
    hide Canon, Storable, Shallow, Below, Visited, Verify;
    var (s, r) := Below(h, t, key);
    var x := NodeHash(h, t);
    BelowOk(h, t, key, Some(x));
    BelowStorable(h, t, key);
    ProofStepTail(h, s, r);
    forall proof
      ensures Verify(h, x, key, [NodeEnc(h, t)] + proof) ==
              if Canon(s) then Verify(h, NodeHash(h, s), r, proof) else if proof == [] then Answer(s, r) else Invalid
    {
      VerifyStep(h, t, key, proof);
    }
  }

  /** One round of the verifier on the encoding of a trie. */
  lemma {:induction false} VerifyStep(h: Hasher, t: Tree, key: Key, proof: seq<Bytes>)
    requires Fits(t, key) && Canon(t) && Storable(h, t) && key != []
    ensures var (s, r) := Below(h, t, key);
            Verify(h, NodeHash(h, t), key, [NodeEnc(h, t)] + proof) ==
            if Canon(s) then Verify(h, NodeHash(h, s), r, proof)
            else if proof == [] then Answer(s, r) else Invalid
  {
    hide Canon, Storable, Shallow, Below, Visited, DecodeNode, Encodings;
    var (s, r) := Below(h, t, key);
    var x := NodeHash(h, t);
    BelowOk(h, t, key, Some(x));
    DecodeNodeOf(h, t, Some(x), []);
    assert NodeEnc(h, t) + [] == NodeEnc(h, t);
    ProofStepTail(h, s, r);
    assert ([NodeEnc(h, t)] + proof)[1..] == proof;
  }

  lemma {:induction false} ProofStepTail(h: Hasher, s: Tree, r: Key)
    requires Fits(s, r) && (Canon(s) ==> Big(h, s)) && Slottable(s)
    ensures Encodings(h, Visited(s, r), false) == if Canon(s) then ProofOf(h, s, r) else []
    ensures Canon(s) ==> r != [] && RefNode(h, s) == HashNode(NodeHash(h, s))
    ensures !Canon(s) ==> (s.Nil? && RefNode(h, s) == NilNode) || (s.Value? && RefNode(h, s) == ValueNode(s.v))
  {
  }

  /** Every key, present or absent, is proved: the verifier answers as the trie does. */
  lemma {:induction false} VerifyComplete(h: Hasher, t: Tree, key: Key)
    requires Fits(t, key) && Canon(t) && Storable(h, t) && key != []
    ensures Verify(h, NodeHash(h, t), key, ProofOf(h, t, key)) == Answer(t, key)
    decreases |key|
  {
    hide Canon, Storable, Verify, ProofOf, Answer;
    ProofStep(h, t, key);
    var (s, r) := Below(h, t, key);
    if Canon(s) { VerifyComplete(h, s, r); }
  }

  /** The first proof element that is not the honest one, with the honest one. */
  function ProofClash(h: Hasher, t: Tree, key: Key, proof: seq<Bytes>): (Bytes, Bytes)
    requires Fits(t, key) && Canon(t) && key != []
    decreases |key|
  {
    if proof == [] then ([], [])
    else if proof[0] != NodeEnc(h, t) then (proof[0], NodeEnc(h, t))
    else
      var (s, r) := Below(h, t, key);
      if Canon(s) then ProofClash(h, s, r, proof[1..]) else ([], [])
  }

  /** Whatever is not rejected is the honest proof with the honest answer, or holds a collision. */
  lemma {:induction false} VerifySound(h: Hasher, t: Tree, key: Key, proof: seq<Bytes>)
    requires Fits(t, key) && Canon(t) && Storable(h, t) && key != []
    requires Verify(h, NodeHash(h, t), key, proof) != Invalid
    ensures (proof == ProofOf(h, t, key) && Verify(h, NodeHash(h, t), key, proof) == Answer(t, key)) ||
            Collides(h, ProofClash(h, t, key, proof))
    decreases |key|
  {
    ProofStep(h, t, key);
    var (s, r) := Below(h, t, key);
    if proof[0] == NodeEnc(h, t) {
      hide Canon, Storable, ProofOf, Answer;
      assert proof == [proof[0]] + proof[1..];
      if Canon(s) { VerifySound(h, s, r, proof[1..]); }
    }
  }

  /** The whole contract of the verifier against the root of a trie, short of a collision: it
      accepts the honest proof alone, and never panics. */
  lemma {:induction false} VerifyExact(h: Hasher, t: Tree, keyBytes: Bytes, proof: seq<Bytes>)
    requires Canon(t) && Storable(h, t) && !Collides(h, ProofClash(h, t, KeyHex(keyBytes), proof))
    ensures Verify(h, NodeHash(h, t), KeyHex(keyBytes), proof) ==
            if proof == ProofOf(h, t, KeyHex(keyBytes)) then Answer(t, KeyHex(keyBytes)) else Invalid
  {
    hide Canon, Storable, Verify, ProofOf, Answer, ProofClash;
    var key := KeyHex(keyBytes);
    VerifyComplete(h, t, key);
    if Verify(h, NodeHash(h, t), key, proof) != Invalid { VerifySound(h, t, key, proof); }
  }

  lemma {:induction false} EncodingsPrefix(h: Hasher, a: seq<Tree>, b: seq<Tree>, first: bool)
    requires a <= b && forall i :: 0 <= i < |b| ==> Canon(b[i])
    ensures forall i :: 0 <= i < |a| ==> Canon(a[i])
    ensures Encodings(h, a, first) <= Encodings(h, b, first)
    ensures |a| < |b| && Big(h, b[|a|]) ==> |Encodings(h, a, first)| < |Encodings(h, b, first)|
    decreases |a|
  {
    hide Canon, Big, NodeEnc;
    if a != [] {
      assert a[0] == b[0] && a[1..] <= b[1..];
      EncodingsPrefix(h, a[1..], b[1..], false);
    }
  }

  lemma {:induction false} PrefixNoClash(h: Hasher, t: Tree, key: Key, proof: seq<Bytes>)
    requires Fits(t, key) && Canon(t) && Storable(h, t) && key != [] && proof <= ProofOf(h, t, key)
    ensures ProofClash(h, t, key, proof) == ([], [])
    decreases |key|
  {
    hide Canon, Storable, ProofOf, Answer;
    ProofStep(h, t, key);
    var (s, r) := Below(h, t, key);
    if proof != [] && Canon(s) { PrefixNoClash(h, s, r, proof[1..]); }
  }

  /** A proof cut short by a missing entry is never accepted. */
  lemma {:induction false} CutRefused(h: Hasher, db: Db, n: Node, keyBytes: Bytes, t: Tree)
    requires Canon(t) && Storable(h, t) && Rep(h, db, n, t, true)
    ensures var key := KeyHex(keyBytes);
            && Fits(t, key)
            && Verify(h, NodeHash(h, t), key, Encodings(h, Met(h, db, n, key, t), true)) ==
               if TryGet(h, db, n, key, t).Ok? then Answer(t, key) else Invalid
  {
    hide Canon, Storable, Rep, Verify, Answer, ProofClash, Met, Visited, TryGet, Encodings, Big;
    var key := KeyHex(keyBytes);
    RootFits(t, keyBytes);
    MetExact(h, db, n, key, t);
    var met, all := Met(h, db, n, key, t), Visited(t, key);
    EncodingsPrefix(h, met, all, true);
    PrefixNoClash(h, t, key, Encodings(h, met, true));
    VerifyExact(h, t, keyBytes, Encodings(h, met, true));
  }
}
