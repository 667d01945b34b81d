/** The hashes cached in the nodes: trie/hasher.go skips a node that has one and takes its encoding
    to be written. What the operations of trie/trie.go keep about the caches, and exactly when a
    commit stores the trie. */
module TrieCache {
  import opened Words
  import opened TrieEncoding
  import opened TrieShape
  import opened TrieNode
  import opened TrieStore
  import opened TrieHasher

  // ---------------------------------------------------------------- an invariant of the caches

  /** Below a cached hash every node referred to by hash has its own cached, or is a hash node. */
  predicate Closed(h: Hasher, n: Node, t: Tree, under: bool)
    decreases n
  {
    match n
    case ShortNode(_, c, f) =>
      && Canon(t) && t.Short? && (under && Big(h, t) ==> f.hash.Some?)
      && Closed(h, c, t.child, under || f.hash.Some?)
    case FullNode(_, f) =>
      && Canon(t) && t.Full? && |n.children| == 17 && (under && Big(h, t) ==> f.hash.Some?)
      && (forall i :: 0 <= i < 17 ==> Closed(h, n.children[i], t.children[i], under || f.hash.Some?))
    case _ => true
  }

  lemma {:induction false} ClosedLess(h: Hasher, n: Node, t: Tree, under: bool)
    requires Closed(h, n, t, under)
    ensures Closed(h, n, t, false)
    decreases n
  {
    match n
    case ShortNode(_, c, f) =>
      if !f.hash.Some? { ClosedLess(h, c, t.child, under); }
    case FullNode(cs, f) =>
      forall i | 0 <= i < 17 && !f.hash.Some? ensures Closed(h, cs[i], t.children[i], false) {
        ClosedLess(h, cs[i], t.children[i], under);
      }
    case _ =>
  }

  lemma {:induction false} ClosedShort(h: Hasher, c: Node, f: Flag, t: Tree)
    requires Canon(t) && t.Short? && f.hash.None? && Closed(h, c, t.child, false)
    ensures Closed(h, ShortNode(t.key, c, f), t, false)
  {
  }

  lemma {:induction false} ClosedFull(h: Hasher, cs: seq<Node>, f: Flag, t: Tree)
    requires Canon(t) && t.Full? && |cs| == |t.children| == 17 && f.hash.None?
    requires forall i :: 0 <= i < 17 ==> Closed(h, cs[i], t.children[i], false)
    ensures Closed(h, FullNode(cs, f), t, false)
  {
  }

  lemma {:induction false} BelowShort(h: Hasher, n: Node, t: Tree)
    requires n.ShortNode? && Closed(h, n, t, false)
    ensures Canon(t) && t.Short? && Closed(h, n.val, t.child, false)
  {
    ClosedLess(h, n.val, t.child, n.flags.hash.Some?);
  }

  lemma {:induction false} BelowFull(h: Hasher, n: Node, t: Tree)
    requires n.FullNode? && Closed(h, n, t, false)
    ensures Canon(t) && t.Full? && |n.children| == 17
    ensures forall i :: 0 <= i < 17 ==> Closed(h, n.children[i], t.children[i], false)
  {
    forall i | 0 <= i < 17 ensures Closed(h, n.children[i], t.children[i], false) {
      ClosedLess(h, n.children[i], t.children[i], n.flags.hash.Some?);
    }
  }

  lemma {:induction false} ClosedLeaf(h: Hasher, n: Node, t: Tree, under: bool)
    requires n.NilNode? || n.ValueNode? || n.HashNode?
    ensures Closed(h, n, t, under)
  {
  }

  /** A decoded node: what it refers to by hash is a hash node, so only itself needs the cache. */
  lemma {:induction false} ShallowClosed(h: Hasher, t: Tree, hash: Option<Bytes>, under: bool)
    requires Canon(t) && (under && Big(h, t) ==> hash.Some?)
    ensures Closed(h, Shallow(h, t, hash), t, under)
    decreases t, 0
  {
    match t
    case Short(k, c) =>
      KeyWellFormed(k, c);
      RefClosed(h, c, under || hash.Some?);
    case Full(cs) =>
      FullSlottable(cs);
      forall i | 0 <= i < 17 ensures Closed(h, RefNodes(h, cs)[i], cs[i], under || hash.Some?) {
        RefNodesAt(h, cs, i);
        RefClosed(h, cs[i], under || hash.Some?);
      }
  }

  lemma {:induction false} RefClosed(h: Hasher, t: Tree, under: bool)
    requires Slottable(t)
    ensures Closed(h, RefNode(h, t), t, under)
    decreases t, 1
  {
    if Canon(t) && !Big(h, t) { ShallowClosed(h, t, None, under); }
  }

  /** A lookup keeps the flags it passes and caches the hash of what it resolves. */
  lemma {:induction false} GetCloses(h: Hasher, db: Db, n: Node, key: Key, t: Tree, under: bool)
    requires Rep(h, db, n, t, true) && Fits(t, key) && Closed(h, n, t, under)
    ensures var r := TryGet(h, db, n, key, t); r.Ok? ==> Closed(h, r.value.1, t, under)
    decreases t, n.HashNode?
  {
    hide Canon, Rep, Fits, Big, Resolve, Shallow;
    match n
    case NilNode =>
    case ValueNode(_) =>
    case ShortNode(k, c, f) =>
      if |k| <= |key| && key[..|k|] == k {
        ShortDown(h, db, n, key, t);
        GetCloses(h, db, c, key[|k|..], t.child, under || f.hash.Some?);
      }
    case FullNode(cs, f) =>
      FullDown(h, db, n, key, t);
      GetCloses(h, db, cs[key[0]], key[1..], t.children[key[0]], under || f.hash.Some?);
    case HashNode(x) =>
      HashOnly(h, db, n, t);
      ResolveOk(h, db, x, t, false);
      if x in db {
        ShallowClosed(h, t, Some(x), under);
        RootRep(h, db, Shallow(h, t, Some(x)), t);
        GetCloses(h, db, Shallow(h, t, Some(x)), key, t, under);
      }
  }

  lemma {:induction false} HashOnly(h: Hasher, db: Db, n: Node, t: Tree)
    requires n.HashNode? && Rep(h, db, n, t, true)
    ensures Canon(t) && Rep(h, db, HashNode(n.h), t, false) && !Shallow(h, t, Some(n.h)).HashNode?
  {
  }

  /** An insertion caches nothing on the path it changes. */
  lemma {:induction false} InsertCloses(h: Hasher, db: Db, n: Node, key: Key, v: Bytes, t: Tree)
    requires Rep(h, db, n, t, true) && Fits(t, key) && Closed(h, n, t, false)
    ensures var r := TryInsert(h, db, n, key, v, t); r.Ok? ==> Closed(h, r.value, Insert(t, key, v), false)
    decreases t, n.HashNode?
  {
    hide Canon, Rep, Fits, Big, Resolve, Shallow, PrefixLen, NodeFork, Fork, Closed;
    ClosedLeaf(h, ValueNode(v), Value(v), false);
    if key != [] {
      InsertCanon(t, key, v);
      match n
      case NilNode =>
        NilTree(h, db, t);
        ClosedShort(h, ValueNode(v), FRESH, Short(key, Value(v)));
      case ValueNode(_) =>
      case ShortNode(k, c, f) =>
        BelowShort(h, n, t);
        ShortTerminated(h, db, n, key, t);
        if PrefixLen(key, k) == |k| {
          PrefixOf(key, k);
          ShortDown(h, db, n, key, t);
          InsertCloses(h, db, c, key[|k|..], v, t.child);
          var r := TryInsert(h, db, c, key[|k|..], v, t.child);
          if r.Ok? { ClosedShort(h, r.value, PLAIN, Short(k, Insert(t.child, key[|k|..], v))); }
        } else {
          PartsInside(t.key, t.child, key);
          ForkCloses(h, k, c, key, v, PrefixLen(key, k), t.child);
        }
      case FullNode(cs, f) =>
        BelowFull(h, n, t);
        FullDown(h, db, n, key, t);
        var i := key[0];
        InsertCloses(h, db, cs[i], key[1..], v, t.children[i]);
        var r := TryInsert(h, db, cs[i], key[1..], v, t.children[i]);
        if r.Ok? { ClosedFull(h, cs[i := r.value], FRESH, Full(t.children[i := Insert(t.children[i], key[1..], v)])); }
      case HashNode(x) =>
        HashOnly(h, db, n, t);
        ResolveOk(h, db, x, t, false);
        if x in db {
          ShallowClosed(h, t, Some(x), false);
          RootRep(h, db, Shallow(h, t, Some(x)), t);
          InsertCloses(h, db, Shallow(h, t, Some(x)), key, v, t);
        }
    }
  }

  lemma {:induction false} NilTree(h: Hasher, db: Db, t: Tree)
    requires Rep(h, db, NilNode, t, true)
    ensures t == Nil
  {
  }

  lemma {:induction false} PrefixOf(key: Key, k: Key)
    requires PrefixLen(key, k) == |k|
    ensures |k| <= |key| && key[..|k|] == k
  {
  }

  lemma {:induction false} WrapCloses(h: Hasher, k: Key, c: Node, t: Tree)
    requires Closed(h, c, t, false) && (k == [] || Canon(Short(k, t)))
    ensures Closed(h, NodeWrap(k, c), Wrap(k, t), false)
  {
  }

  lemma {:induction false} ForkCloses(h: Hasher, k: Key, c: Node, key: Key, v: Bytes, m: nat, t: Tree)
    requires Canon(Short(k, t)) && Terminated(key) && Closed(h, c, t, false)
    requires m < |k| && m < |key| && k[m] <= 16 && key[m] <= 16 && k[m] != key[m] && Nibbled(key[..m])
    ensures Closed(h, NodeFork(k, c, key, v, m), Fork(k, t, key, v, m), false)
  {
    hide Canon, Closed, NodeWrap, NoNodes, NoChildren;
    BranchCloses(h, k, c, key, v, m, t);
    ForkCanon(k, t, key, v, m);
    var ns := NoNodes()[k[m] := NodeWrap(k[m + 1..], c)][key[m] := NodeWrap(key[m + 1..], ValueNode(v))];
    if m > 0 { ClosedShort(h, FullNode(ns, PLAIN), FRESH, Fork(k, t, key, v, m)); }
  }

  lemma {:induction false} BranchCloses(h: Hasher, k: Key, c: Node, key: Key, v: Bytes, m: nat, t: Tree)
    requires Canon(Short(k, t)) && Terminated(key) && Closed(h, c, t, false)
    requires m < |k| && m < |key| && k[m] <= 16 && key[m] <= 16 && k[m] != key[m]
    ensures var ns := NoNodes()[k[m] := NodeWrap(k[m + 1..], c)][key[m] := NodeWrap(key[m + 1..], ValueNode(v))];
            var cs := NoChildren()[k[m] := Wrap(k[m + 1..], t)][key[m] := Wrap(key[m + 1..], Value(v))];
            Closed(h, FullNode(ns, PLAIN), Full(cs), false)
  {
    hide Canon, Closed, NodeWrap, Wrap, NoNodes, NoChildren;
    WrapTail(k, t, m);
    WrapTail(key, Value(v), m);
    WrapCloses(h, k[m + 1..], c, t);
    ClosedLeaf(h, ValueNode(v), Value(v), false);
    WrapCloses(h, key[m + 1..], ValueNode(v), Value(v));
    ForkBranchCanon(k, t, key, v, m);
    ClosedLeaf(h, NilNode, Nil, false);
    var ns := NoNodes()[k[m] := NodeWrap(k[m + 1..], c)][key[m] := NodeWrap(key[m + 1..], ValueNode(v))];
    var cs := NoChildren()[k[m] := Wrap(k[m + 1..], t)][key[m] := Wrap(key[m + 1..], Value(v))];
    ClosedFull(h, ns, PLAIN, Full(cs));
  }

  lemma {:induction false} WrapTail(k: Key, t: Tree, m: nat)
    requires Canon(Short(k, t)) && m < |k|
    ensures k[m + 1..] == [] || Canon(Short(k[m + 1..], t))
  {
    WrapFits(k, t, m);
  }

  /** A deletion caches nothing on the path it changes, and merges only below uncached nodes. */
  lemma {:induction false} DeleteCloses(h: Hasher, db: Db, n: Node, key: Key, t: Tree)
    requires Rep(h, db, n, t, true) && Fits(t, key) && Closed(h, n, t, false)
    ensures var r := TryDelete(h, db, n, key, t); r.Ok? ==> Closed(h, r.value, Delete(t, key), false)
    decreases t, n.HashNode?
  {
    hide Canon, Rep, Fits, Big, Resolve, Shallow, PrefixLen, Closed, Merge, MergeNode, Collapse, CollapseNode, Backed;
    ClosedLeaf(h, NilNode, Nil, false);
    match n
    case NilNode =>
      NilTree(h, db, t);
    case ValueNode(v) =>
      ValueTree(h, db, v, t);
    case ShortNode(k, c, f) =>
      BelowShort(h, n, t);
      ShortTerminated(h, db, n, key, t);
      if PrefixLen(key, k) == |k| < |key| {
        PrefixOf(key, k);
        ShortDown(h, db, n, key, t);
        DeleteCloses(h, db, c, key[|k|..], t.child);
        TryDeleteOk(h, db, c, key[|k|..], t.child, false);
        DeleteMerges(t, key);
        var r := TryDelete(h, db, c, key[|k|..], t.child);
        if r.Ok? { MergeCloses(h, db, k, r.value, Delete(t.child, key[|k|..])); }
      }
    case FullNode(cs, f) =>
      BelowFull(h, n, t);
      FullDown(h, db, n, key, t);
      var i := key[0];
      DeleteCloses(h, db, cs[i], key[1..], t.children[i]);
      TryDeleteOk(h, db, cs[i], key[1..], t.children[i], false);
      var r := TryDelete(h, db, cs[i], key[1..], t.children[i]);
      if r.Ok? {
        DeleteCollapses(h, db, n, key, t);
        FullParts(h, db, n, t, true);
        CollapseCloses(h, db, cs[i := r.value], t.children[i := Delete(t.children[i], key[1..])]);
      }
    case HashNode(x) =>
      HashOnly(h, db, n, t);
      ResolveOk(h, db, x, t, false);
      if x in db {
        ShallowClosed(h, t, Some(x), false);
        RootRep(h, db, Shallow(h, t, Some(x)), t);
        DeleteCloses(h, db, Shallow(h, t, Some(x)), key, t);
      }
  }

  lemma {:induction false} ValueTree(h: Hasher, db: Db, v: Bytes, t: Tree)
    requires Rep(h, db, ValueNode(v), t, true)
    ensures t == Value(v)
  {
  }

  lemma {:induction false} MergeCloses(h: Hasher, db: Db, k: Key, n: Node, t: Tree)
    requires Rep(h, db, n, t, false) && !n.HashNode? && Closed(h, n, t, false) && Canon(Merge(k, t))
    ensures Closed(h, MergeNode(k, n), Merge(k, t), false)
  {
    if n.ShortNode? {
      BelowShort(h, n, t);
      ClosedShort(h, n.val, PLAIN, Merge(k, t));
    } else {
      ClosedShort(h, n, PLAIN, Merge(k, t));
    }
  }

  /** The branch that a deletion leaves has its slots in shape and a child left. */
  lemma {:induction false} DeleteCollapses(h: Hasher, db: Db, n: Node, key: Key, t: Tree)
    requires n.FullNode? && Rep(h, db, n, t, true) && Fits(t, key)
    ensures t.Full? && |t.children| == 17 && |key| > 0 && key[0] < 17 && Fits(t.children[key[0]], key[1..])
    ensures var cs := t.children[key[0] := Delete(t.children[key[0]], key[1..])];
            Slots(cs) && OnlyChild(cs) != -1 && Delete(t, key) == Collapse(cs)
  {
    hide Rep;
    FullTerminated(h, db, n, key, t);
    FullDown(h, db, n, key, t);
    FitsBelowFull(t.children, key);
    var c := Delete(t.children[key[0]], key[1..]);
    DeleteCanon(t.children[key[0]], key[1..]);
    KeepsOne(t.children, key[0], c);
  }

  lemma {:induction false} CollapseCloses(h: Hasher, db: Db, ns: seq<Node>, cs: seq<Tree>)
    requires |ns| == |cs| == 17 && Slots(cs) && OnlyChild(cs) != -1
    requires forall i :: 0 <= i < 17 ==> Rep(h, db, ns[i], cs[i], false) && Closed(h, ns[i], cs[i], false)
    ensures var r := CollapseNode(db, ns); r.Ok? ==> Closed(h, r.value, Collapse(cs), false)
  {
    hide Canon, Rep, Closed, Resolve, Slots, OnlyChild, OnlyNode;
    SameScan(h, db, ns, cs);
    CollapseCanon(cs);
    var pos := OnlyChild(cs);
    if pos < 0 {
      ClosedFull(h, ns, PLAIN, Full(cs));
    } else if pos == 16 {
      ClosedShort(h, ns[16], PLAIN, Short([16], cs[16]));
    } else {
      OntoCloses(h, db, ns[pos], cs[pos], pos);
    }
  }

  lemma {:induction false} OntoCloses(h: Hasher, db: Db, n: Node, t: Tree, pos: nat)
    requires pos < 16 && Rep(h, db, n, t, false) && Closed(h, n, t, false)
    requires Canon(if t.Short? then Short([pos] + t.key, t.child) else Short([pos], t))
    ensures var t' := if t.Short? then Short([pos] + t.key, t.child) else Short([pos], t);
            var c := if n.HashNode? then Resolve(db, n.h) else Found.Ok(n);
            c.Ok? ==>
              Closed(h, if c.value.ShortNode? then ShortNode([pos] + c.value.key, c.value.val, PLAIN)
                        else ShortNode([pos], n, PLAIN), t', false)
  {
    var t' := if t.Short? then Short([pos] + t.key, t.child) else Short([pos], t);
    var c := if n.HashNode? then Resolve(db, n.h) else Found.Ok(n);
    if n.HashNode? {
      ResolveOk(h, db, n.h, t, false);
      ShallowClosed(h, t, Some(n.h), false);
    }
    if c.Ok? {
      assert Rep(h, db, c.value, t, false) && Closed(h, c.value, t, false);
      assert c.value.ShortNode? == t.Short? && (t.Short? ==> c.value.key == t.key);
      hide Rep, Canon, Closed, Shallow, Resolve;
      if t.Short? {
        BelowShort(h, c.value, t);
        ClosedShort(h, c.value.val, PLAIN, t');
      } else {
        ClosedShort(h, n, PLAIN, t');
      }
    }
  }

  // ---------------------------------------------------------------- hashing

  /** Hashing leaves a cached hash on every node referred to by one, so the caches are closed. */
  lemma {:induction false} HashedCloses(h: Hasher, db: Db, n: Node, force: bool, t: Tree)
    requires Canon(t) && Rep(h, db, n, t, true) && Closed(h, n, t, false)
    ensures Closed(h, Hashed(h, n, force, db, t).cached, t, true)
    decreases n, 1
  {
    if !(n.HashNode? || n.flags.hash.Some?) {
      CollapsedOk(h, db, n, t);
      CollapsedCloses(h, db, n, t);
      SealedCloses(h, Collapsed(h, n, db, t), force, t);
    }
  }

  /** The children of a node, closed under a cached hash. */
  predicate ClosedBelow(h: Hasher, n: Node, t: Tree) {
    match n
    case ShortNode(_, c, _) => Canon(t) && t.Short? && Closed(h, c, t.child, true)
    case FullNode(cs, _) =>
      Canon(t) && t.Full? && |cs| == 17 && forall i :: 0 <= i < 17 ==> Closed(h, cs[i], t.children[i], true)
    case _ => false
  }

  lemma {:induction false} SealedCloses(h: Hasher, out: HashOut, force: bool, t: Tree)
    requires Canon(t) && out.ref == NodeItem(h, t) && ClosedBelow(h, out.cached, t)
    ensures Closed(h, Sealed(h, out, force).cached, t, true)
  {
  }

  lemma {:induction false} CollapsedCloses(h: Hasher, db: Db, n: Node, t: Tree)
    requires Canon(t) && Rep(h, db, n, t, true) && (n.ShortNode? || n.FullNode?) && Closed(h, n, t, false)
    ensures ClosedBelow(h, Collapsed(h, n, db, t).cached, t)
    decreases n, 0
  {
    hide Canon, Rep, Closed;
    if n.ShortNode? {
      BelowShort(h, n, t);
      if n.val.ValueNode? {
        ClosedLeaf(h, n.val, t.child, true);
      } else {
        ExtensionChild(h, db, n, t);
        HashedCloses(h, db, n.val, false, t.child);
      }
    } else {
      BelowFull(h, n, t);
      FullChildren(h, db, n, t);
      HashedAllCloses(h, db, n.children[..16], t.children[..16]);
      ClosedLeaf(h, n.children[16], t.children[16], true);
      CollapsedFullIs(h, db, n, t);
    }
  }

  lemma {:induction false} HashedAllCloses(h: Hasher, db: Db, ns: seq<Node>, ts: seq<Tree>)
    requires |ns| == |ts| && forall i :: 0 <= i < |ns| ==> CanonOrNil(ts[i]) && Rep(h, db, ns[i], ts[i], false)
    requires forall i :: 0 <= i < |ns| ==> Closed(h, ns[i], ts[i], false)
    ensures var r := HashedAll(h, ns, db, ts); forall i :: 0 <= i < |ns| ==> Closed(h, r.cached[i], ts[i], true)
    decreases ns
  {
    hide Canon, Rep, Closed, Hashed, CanonOrNil;
    if ns != [] {
      HashedAllCloses(h, db, ns[1..], ts[1..]);
      if ns[0].NilNode? {
        ClosedLeaf(h, NilNode, ts[0], true);
      } else {
        LiveChild(h, db, ns[0], ts[0]);
        HashedCloses(h, db, ns[0], false, ts[0]);
      }
      var r, rest := HashedAll(h, ns, db, ts), HashedAll(h, ns[1..], db, ts[1..]);
      forall i | 0 <= i < |ns| ensures Closed(h, r.cached[i], ts[i], true) {
        if i > 0 { assert r.cached[i] == rest.cached[i - 1] && ts[1..][i - 1] == ts[i]; }
      }
    }
  }

  // ---------------------------------------------------------------- what hashing writes

  /** The tries of the nodes that have no cached hash and are referred to by one, or are the root
      (force), children first. Nothing below a cached hash is among them. */
  ghost function Pending(h: Hasher, n: Node, t: Tree, force: bool): (r: seq<Tree>)
    ensures forall i :: 0 <= i < |r| ==> Canon(r[i])
    decreases n
  {
    if !Canon(t) then []
    else match n
      case ShortNode(_, c, f) =>
        if f.hash.Some? || !t.Short? then [] else Pending(h, c, t.child, false) + Own(h, t, force)
      case FullNode(cs, f) =>
        if f.hash.Some? || !t.Full? || |cs| != 17 then []
        else PendingAll(h, cs[..16], t.children[..16]) + Own(h, t, force)
      case _ => []
  }

  ghost function PendingAll(h: Hasher, ns: seq<Node>, ts: seq<Tree>): (r: seq<Tree>)
    requires |ns| == |ts|
    ensures forall i :: 0 <= i < |r| ==> Canon(r[i])
    decreases ns
  {
    if ns == [] then [] else Pending(h, ns[0], ts[0], false) + PendingAll(h, ns[1..], ts[1..])
  }

  ghost function Own(h: Hasher, t: Tree, force: bool): seq<Tree>
    requires Canon(t)
  {
    if force || Big(h, t) then [t] else []
  }

  ghost function Records(h: Hasher, ts: seq<Tree>): seq<Put>
    requires forall i :: 0 <= i < |ts| ==> Canon(ts[i])
  {
    seq(|ts|, i requires 0 <= i < |ts| => (NodeHash(h, ts[i]), NodeEnc(h, ts[i])))
  }

  /** Hashing writes the encodings of those tries and no others, each under its hash. */
  lemma {:induction false} HashedWrites(h: Hasher, db: Db, n: Node, force: bool, t: Tree)
    requires Canon(t) && Rep(h, db, n, t, true)
    ensures Hashed(h, n, force, db, t).puts == Records(h, Pending(h, n, t, force))
    decreases n, 1
  {
    hide Canon, Rep, NodeEnc, NodeHash, Records, Collapsed;
    if n.HashNode? {
      assert Records(h, []) == [] by { NoRecords(h); }
    } else {
      NodeKinds(h, db, n, t);
      if n.flags.hash.Some? {
        NoRecords(h);
      } else {
        CollapsedOk(h, db, n, t);
        CollapsedWrites(h, db, n, t);
        var below := if n.ShortNode? then Pending(h, n.val, t.child, false)
                     else PendingAll(h, n.children[..16], t.children[..16]);
        SealedWrites(h, Collapsed(h, n, db, t), below, force, t);
      }
    }
  }

  lemma {:induction false} NodeKinds(h: Hasher, db: Db, n: Node, t: Tree)
    requires Canon(t) && Rep(h, db, n, t, true) && !n.HashNode?
    ensures (n.ShortNode? && t.Short?) || (n.FullNode? && t.Full? && |n.children| == |t.children| == 17)
    ensures n.flags.hash.Some? ==> !n.flags.dirty
  {
  }

  lemma {:induction false} NoRecords(h: Hasher)
    ensures Records(h, []) == []
  {
  }

  lemma {:induction false} RecordsSum(h: Hasher, a: seq<Tree>, b: seq<Tree>)
    requires forall i :: 0 <= i < |a| ==> Canon(a[i])
    requires forall i :: 0 <= i < |b| ==> Canon(b[i])
    ensures Records(h, a + b) == Records(h, a) + Records(h, b)
  {
    hide Canon, NodeHash, NodeEnc;
  }

  lemma {:induction false} SealedWrites(h: Hasher, out: HashOut, below: seq<Tree>, force: bool, t: Tree)
    requires Canon(t) && out.ref == NodeItem(h, t)
    requires (forall i :: 0 <= i < |below| ==> Canon(below[i])) && out.puts == Records(h, below)
    ensures Sealed(h, out, force).puts == Records(h, below + Own(h, t, force))
  {
    hide Canon;
    RecordsSum(h, below, Own(h, t, force));
    if force || Big(h, t) {
      assert Records(h, [t]) == [(NodeHash(h, t), NodeEnc(h, t))];
    } else {
      NoRecords(h);
      assert out.puts + [] == out.puts;
    }
  }

  lemma {:induction false} CollapsedWrites(h: Hasher, db: Db, n: Node, t: Tree)
    requires Canon(t) && Rep(h, db, n, t, true)
    requires (n.ShortNode? && t.Short?) || (n.FullNode? && t.Full? && |n.children| == |t.children| == 17)
    ensures var below := if n.ShortNode? then Pending(h, n.val, t.child, false)
                         else PendingAll(h, n.children[..16], t.children[..16]);
            Collapsed(h, n, db, t).puts == Records(h, below)
    decreases n, 0
  {
    hide Canon, Rep, Hashed, HashedAll, Records, Compact;
    if n.FullNode? {
      FullChildren(h, db, n, t);
      CollapsedFullIs(h, db, n, t);
      HashedAllWrites(h, db, n.children[..16], t.children[..16]);
    } else if n.val.ValueNode? {
      NoRecords(h);
    } else {
      ExtensionChild(h, db, n, t);
      HashedWrites(h, db, n.val, false, t.child);
    }
  }

  lemma {:induction false} HashedAllWrites(h: Hasher, db: Db, ns: seq<Node>, ts: seq<Tree>)
    requires |ns| == |ts| && forall i :: 0 <= i < |ns| ==> CanonOrNil(ts[i]) && Rep(h, db, ns[i], ts[i], false)
    ensures HashedAll(h, ns, db, ts).puts == Records(h, PendingAll(h, ns, ts))
    decreases ns
  {
    hide Canon, Rep, Hashed, Records, CanonOrNil, Pending;
    if ns == [] {
      NoRecords(h);
    } else {
      HashedAllWrites(h, db, ns[1..], ts[1..]);
      RecordsSum(h, Pending(h, ns[0], ts[0], false), PendingAll(h, ns[1..], ts[1..]));
      if ns[0].NilNode? {
        NilPending(h, ts[0]);
        NoRecords(h);
        var rest := HashedAll(h, ns[1..], db, ts[1..]).puts;
        assert [] + rest == rest;
      } else {
        LiveChild(h, db, ns[0], ts[0]);
        HashedWrites(h, db, ns[0], false, ts[0]);
      }
    }
  }

  lemma {:induction false} NilPending(h: Hasher, t: Tree)
    ensures Pending(h, NilNode, t, false) == []
  {
  }

  // ---------------------------------------------------------------- exactly when a commit stores the trie

  /** The trie's encoding is in the database under its hash, or among the writes. */
  predicate Has(h: Hasher, db: Db, puts: seq<Put>, t: Tree)
    requires Canon(t)
  {
    Entered(h, db, t) || (NodeHash(h, t), NodeEnc(h, t)) in puts
  }

  /** Every cached hash has its entry in the database or among the writes. */
  predicate Entries(h: Hasher, db: Db, puts: seq<Put>, n: Node, t: Tree)
    decreases n
  {
    match n
    case ShortNode(_, c, f) =>
      Canon(t) && t.Short? && (f.hash.Some? ==> Has(h, db, puts, t)) && Entries(h, db, puts, c, t.child)
    case FullNode(_, f) =>
      && Canon(t) && t.Full? && |n.children| == 17 && (f.hash.Some? ==> Has(h, db, puts, t))
      && (forall i :: 0 <= i < 17 ==> Entries(h, db, puts, n.children[i], t.children[i]))
    case _ => true
  }

  lemma {:induction false} PutAllHas(db: Db, puts: seq<Put>, x: Bytes, b: Bytes)
    requires FirstClash(db, puts).None?
    ensures x in PutAll(db, puts) && PutAll(db, puts)[x] == b <==> (x in db && db[x] == b) || (x, b) in puts
    decreases |puts|
  {
    if puts != [] {
      var db' := db[puts[0].0 := puts[0].1];
      PutAllHas(db', puts[1..], x, b);
      assert (x, b) in puts <==> (x, b) == puts[0] || (x, b) in puts[1..];
    }
  }

  /** The entries after the writes are those before and the writes. */
  lemma {:induction false} EntriesAfter(h: Hasher, db: Db, puts: seq<Put>, n: Node, t: Tree)
    requires FirstClash(db, puts).None?
    ensures Entries(h, PutAll(db, puts), [], n, t) <==> Entries(h, db, puts, n, t)
    decreases n
  {
    hide PutAll, FirstClash, NodeEnc, NodeHash, Canon;
    if Canon(t) { PutAllHas(db, puts, NodeHash(h, t), NodeEnc(h, t)); }
    match n
    case ShortNode(_, c, f) =>
      if t.Short? { EntriesAfter(h, db, puts, c, t.child); }
    case FullNode(cs, f) =>
      if Canon(t) && t.Full? && |cs| == 17 {
        FullSlottable(t.children);
        forall i | 0 <= i < 17
          ensures Entries(h, PutAll(db, puts), [], cs[i], t.children[i]) <==> Entries(h, db, puts, cs[i], t.children[i])
        {
          EntriesAfter(h, db, puts, cs[i], t.children[i]);
        }
      }
    case _ =>
  }

  /** Below a cached hash: what is referred to by hash is cached and so entered, or a hash node and
      so stored. */
  lemma {:induction false} UnderStored(h: Hasher, db: Db, n: Node, t: Tree)
    requires Rep(h, db, n, t, false) && Backed(h, db, n, t, false)
    requires Closed(h, n, t, true) && Entries(h, db, [], n, t)
    ensures Canon(t) ==> Stored(h, db, t)
    decreases n
  {
    hide Big, Entered, FlagOk;
    match n
    case ShortNode(_, c, _) =>
      UnderStored(h, db, c, t.child);
    case FullNode(cs, _) =>
      forall i | 0 <= i < 17 ensures Canon(t.children[i]) ==> Stored(h, db, t.children[i]) {
        UnderStored(h, db, cs[i], t.children[i]);
      }
    case _ =>
  }

  lemma {:induction false} EntriesBack(h: Hasher, db: Db, n: Node, t: Tree, root: bool, under: bool)
    requires Rep(h, db, n, t, root) && Backed(h, db, n, t, false)
    requires Closed(h, n, t, under) && Entries(h, db, [], n, t)
    ensures Backed(h, db, n, t, true)
    decreases n
  {
    hide Big, Entered, FlagOk, Stored;
    match n
    case ShortNode(_, c, f) =>
      EntriesBack(h, db, c, t.child, false, under || f.hash.Some?);
      if f.hash.Some? { UnderStored(h, db, c, t.child); }
    case FullNode(cs, f) =>
      forall i | 0 <= i < 17
        ensures Backed(h, db, cs[i], t.children[i], true)
        ensures f.hash.Some? && Canon(t.children[i]) ==> Stored(h, db, t.children[i])
      {
        EntriesBack(h, db, cs[i], t.children[i], false, under || f.hash.Some?);
        if f.hash.Some? { UnderStored(h, db, cs[i], t.children[i]); }
      }
    case _ =>
  }

  lemma {:induction false} BackedEntries(h: Hasher, db: Db, n: Node, t: Tree)
    requires Backed(h, db, n, t, true)
    ensures Entries(h, db, [], n, t)
    decreases n
  {
    hide Big, Entered, Stored, ChildrenStored, Canon;
    match n
    case ShortNode(_, c, f) =>
      BackedEntries(h, db, c, t.child);
    case FullNode(cs, f) =>
      FullSlottable(t.children);
      forall i | 0 <= i < 17 ensures Entries(h, db, [], cs[i], t.children[i]) {
        BackedEntries(h, db, cs[i], t.children[i]);
      }
    case _ =>
  }

  lemma {:induction false} EntriesMore(h: Hasher, db: Db, puts: seq<Put>, n: Node, t: Tree)
    requires Entries(h, db, [], n, t)
    ensures Entries(h, db, puts, n, t)
    decreases n
  {
    hide Canon, Entered, NodeEnc;
    match n
    case ShortNode(_, c, f) =>
      EntriesMore(h, db, puts, c, t.child);
    case FullNode(cs, f) =>
      FullSlottable(t.children);
      forall i | 0 <= i < 17 ensures Entries(h, db, puts, cs[i], t.children[i]) {
        EntriesMore(h, db, puts, cs[i], t.children[i]);
      }
    case _ =>
  }

  /** A commit stores the trie exactly when every hash cached before it has its entry, in the
      database or among the writes of this very commit: cached hashes are taken to be written. */
  lemma {:induction false} CommitExact(h: Hasher, db: Db, n: Node, t: Tree)
    requires Canon(t) && Rep(h, db, n, t, true) && Backed(h, db, n, t, false) && DbKeyed(h, db) &&
             Closed(h, n, t, false)
    requires FirstClash(db, Hashed(h, n, true, db, t).puts).None?
    ensures var puts := Hashed(h, n, true, db, t).puts;
            && puts == Records(h, Pending(h, n, t, true))
            && (Entered(h, PutAll(db, puts), t) && Stored(h, PutAll(db, puts), t) <==> Entries(h, db, puts, n, t))
  {
    hide Canon, Rep, Backed, Closed, Hashed, Entries, Entered, Stored, PutAll, FirstClash, Pending, Records;
    HashedOk(h, db, n, true, t);
    HashedWrites(h, db, n, true, t);
    var puts := Hashed(h, n, true, db, t).puts;
    var db' := PutAll(db, puts);
    PutAllKeeps(h, db, puts);
    RepGrows(h, db, db', n, t, true);
    EntriesAfter(h, db, puts, n, t);
    if Entries(h, db', [], n, t) {
      EntriesBack(h, db', n, t, true, false);
      SameHashed(h, db, db', n, true, t);
      HashedStored(h, db', db', n, true, t);
    }
    if Entered(h, db', t) && Stored(h, db', t) {
      StoredBacks(h, db', n, t, true);
      BackedEntries(h, db', n, t);
    }
  }

  /** Hash, then Commit: the second finds the root cached, writes nothing, and the trie is lost
      unless its root was in the database already. */
  lemma {:induction false} HashThenCommit(h: Hasher, db: Db, n: Node, t: Tree)
    requires Canon(t) && Rep(h, db, n, t, true) && !n.HashNode?
    ensures var cached := Hashed(h, n, true, db, t).cached;
            && Rep(h, db, cached, t, true)
            && Hashed(h, cached, true, db, t).puts == []
            && (Entered(h, PutAll(db, Hashed(h, cached, true, db, t).puts), t) <==> Entered(h, db, t))
  {
    HashedOk(h, db, n, true, t);
  }

  /** One update, Hash and Commit on an empty database: the commit leaves it empty. */
  lemma {:induction false} UpdateLost(h: Hasher, key: Key, v: Bytes)
    requires Terminated(key)
    ensures Canon(Short(key, Value(v)))
    ensures var t, n := Short(key, Value(v)), ShortNode(key, ValueNode(v), FRESH);
            && Rep(h, map[], NilNode, Nil, true) && TryInsert(h, map[], NilNode, key, v, Nil) == Found.Ok(n)
            && Rep(h, map[], n, t, true)
            && var cached := Hashed(h, n, true, map[], t).cached;
               && Rep(h, map[], cached, t, true)
               && PutAll(map[], Hashed(h, cached, true, map[], t).puts) == map[]
               && !Entered(h, map[], t)
  {
    HashThenCommit(h, map[], ShortNode(key, ValueNode(v), FRESH), Short(key, Value(v)));
  }
}
