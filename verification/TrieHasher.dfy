/** trie/hasher.go: collapse, embed or hash every node, with hashes cached in the nodes and the
    encodings written to a database; and what committing a trie leaves behind. */
module TrieHasher {
  import opened Words
  import opened Rlp
  import opened TrieEncoding
  import opened TrieShape
  import opened TrieNode
  import opened TrieStore

  type Put = (Bytes, Bytes)

  /** How the parent refers to the node, the node with its hash cached, and the database writes. */
  datatype HashOut = HashOut(ref: Item, cached: Node, puts: seq<Put>)
  datatype AllOut = AllOut(refs: seq<Item>, cached: seq<Node>, puts: seq<Put>)

  /** hash: a node with a clean cached hash is skipped; a short encoding is embedded unless forced. */
  function Hashed(h: Hasher, n: Node, force: bool, ghost db: Db, ghost t: Tree): HashOut
    requires Canon(t) && Rep(h, db, n, t, true)
    decreases n, 1
  {
    match n
    case HashNode(x) => HashOut(Str(x), n, [])
    case ShortNode(k, c, f) =>
      if f.hash.Some? && !f.dirty then HashOut(Str(f.hash.value), n, [])
      else Sealed(h, Collapsed(h, n, db, t), force)
    case FullNode(cs, f) =>
      if f.hash.Some? && !f.dirty then HashOut(Str(f.hash.value), n, [])
      else Sealed(h, Collapsed(h, n, db, t), force)
  }

  function WithFlag(n: Node, f: Flag): Node {
    match n
    case ShortNode(k, c, _) => ShortNode(k, c, f)
    case FullNode(cs, _) => FullNode(cs, f)
    case _ => n
  }

  /** store: embed a short encoding, else hash it and write it out. */
  function Sealed(h: Hasher, out: HashOut, force: bool): HashOut {
    var enc := Encode(out.ref);
    if |enc| < 32 && !force then HashOut(out.ref, WithFlag(out.cached, Flag(None, false)), out.puts)
    else HashOut(Str(h(enc)), WithFlag(out.cached, Flag(Some(h(enc)), false)), out.puts + [(h(enc), enc)])
  }

  /** hashChildren: the collapsed node as an item, and the node with its children cached. */
  function Collapsed(h: Hasher, n: Node, ghost db: Db, ghost t: Tree): HashOut
    requires Canon(t) && Rep(h, db, n, t, true) && (n.ShortNode? || n.FullNode?)
    decreases n, 0
  {
    match n
    case ShortNode(k, c, f) =>
      KeyWellFormed(t.key, t.child);
      if c.ValueNode? then HashOut(Items([Str(Compact(k)), Str(c.v)]), n, [])
      else
        ExtensionChild(h, db, n, t);
        var r := Hashed(h, c, false, db, t.child);
        HashOut(Items([Str(Compact(k)), r.ref]), ShortNode(k, r.cached, f), r.puts)
    case FullNode(cs, f) =>
      FullChildren(h, db, n, t);
      var r := HashedAll(h, cs[..16], db, t.children[..16]);
      var last := if cs[16].ValueNode? then cs[16].v else [];
      HashOut(Items(r.refs + [Str(last)]), FullNode(r.cached + [cs[16]], f), r.puts)
  }

  /** The sixteen children in order; an empty slot collapses to an empty string. */
  function HashedAll(h: Hasher, ns: seq<Node>, ghost db: Db, ghost ts: seq<Tree>): (r: AllOut)
    requires |ns| == |ts| && forall i :: 0 <= i < |ns| ==> CanonOrNil(ts[i]) && Rep(h, db, ns[i], ts[i], false)
    ensures |r.refs| == |r.cached| == |ns|
    decreases ns
  {
    if ns == [] then AllOut([], [], [])
    else
      var rest := HashedAll(h, ns[1..], db, ts[1..]);
      if ns[0].NilNode? then AllOut([Str([])] + rest.refs, [NilNode] + rest.cached, rest.puts)
      else
        LiveChild(h, db, ns[0], ts[0]);
        var r := Hashed(h, ns[0], false, db, ts[0]);
        AllOut([r.ref] + rest.refs, [r.cached] + rest.cached, r.puts + rest.puts)
  }

  lemma {:induction false} LiveChild(h: Hasher, db: Db, n: Node, t: Tree)
    requires CanonOrNil(t) && Rep(h, db, n, t, false) && !n.NilNode?
    ensures Canon(t) && Rep(h, db, n, t, true)
  {
    RootRep(h, db, n, t);
  }

  lemma {:induction false} ExtensionChild(h: Hasher, db: Db, n: Node, t: Tree)
    requires n.ShortNode? && Canon(t) && Rep(h, db, n, t, true) && !n.val.ValueNode?
    ensures t.child.Full? && Canon(t.child) && Rep(h, db, n.val, t.child, false) && Rep(h, db, n.val, t.child, true)
  {
    RootRep(h, db, n.val, t.child);
  }

  lemma {:induction false} FullChildren(h: Hasher, db: Db, n: Node, t: Tree)
    requires n.FullNode? && Canon(t) && Rep(h, db, n, t, true)
    ensures t.Full? && |n.children| == |t.children| == 17
    ensures forall i :: 0 <= i < 16 ==> CanonOrNil(t.children[i]) && Rep(h, db, n.children[i], t.children[i], false)
    ensures if t.children[16].Value? then n.children[16] == ValueNode(t.children[16].v)
            else n.children[16] == NilNode && t.children[16] == Nil
  {
    assert Rep(h, db, n.children[16], t.children[16], false);
  }

  /** The loop of hashChildren over the sixteen children. */
  method CollapseChildren(h: Hasher, ns: seq<Node>, ghost db: Db, ghost ts: seq<Tree>) returns (r: AllOut)
    requires |ns| == |ts| && forall i :: 0 <= i < |ns| ==> CanonOrNil(ts[i]) && Rep(h, db, ns[i], ts[i], false)
    ensures r == HashedAll(h, ns, db, ts)
  {
    hide Rep, Canon, Hashed, CanonOrNil;
    var refs: seq<Item>, cached: seq<Node>, puts: seq<Put> := [], [], [];
    ghost var all := HashedAll(h, ns, db, ts);
    assert [] + all.refs == all.refs && [] + all.cached == all.cached && [] + all.puts == all.puts;
    for i := 0 to |ns|
      invariant var rest := HashedAll(h, ns[i..], db, ts[i..]);
                HashedAll(h, ns, db, ts) == AllOut(refs + rest.refs, cached + rest.cached, puts + rest.puts)
    {
      ghost var rest := HashedAll(h, ns[i + 1..], db, ts[i + 1..]);
      assert ns[i..][1..] == ns[i + 1..] && ts[i..][1..] == ts[i + 1..];
      if ns[i].NilNode? {
        Assoc(refs, [Str([])], rest.refs);
        Assoc(cached, [NilNode], rest.cached);
        refs, cached := refs + [Str([])], cached + [NilNode];
      } else {
        LiveChild(h, db, ns[i], ts[i]);
        var o := Hashed(h, ns[i], false, db, ts[i]);
        Assoc(refs, [o.ref], rest.refs);
        Assoc(cached, [o.cached], rest.cached);
        Assoc(puts, o.puts, rest.puts);
        refs, cached, puts := refs + [o.ref], cached + [o.cached], puts + o.puts;
      }
    }
    assert refs + [] == refs && cached + [] == cached && puts + [] == puts;
    r := AllOut(refs, cached, puts);
  }

  // ---------------------------------------------------------------- the hash of a trie

  /** Every write puts an encoding under its own hash. */
  predicate Keyed(h: Hasher, puts: seq<Put>) {
    forall i :: 0 <= i < |puts| ==> puts[i].0 == h(puts[i].1)
  }

  lemma {:induction false} ReFlag(h: Hasher, db: Db, n: Node, t: Tree, r: bool, f: Flag, root: bool)
    requires Canon(t) && Rep(h, db, n, t, r) && (n.ShortNode? || n.FullNode?) && FlagOk(h, f, t, root)
    ensures Rep(h, db, WithFlag(n, f), t, root)
  {
  }

  /** Hashing a node refers to it as its trie is referred to, and leaves a node for the trie with
      right hashes cached. */
  lemma {:induction false} HashedOk(h: Hasher, db: Db, n: Node, force: bool, t: Tree)
    requires Canon(t) && Rep(h, db, n, t, force) && Rep(h, db, n, t, true)
    ensures var out := Hashed(h, n, force, db, t);
            && out.ref == (if force then Str(NodeHash(h, t)) else RefItem(h, t))
            && Rep(h, db, out.cached, t, force) && !out.cached.NilNode? && Keyed(h, out.puts)
            && (Backed(h, db, n, t, false) ==> Backed(h, db, out.cached, t, false))
    decreases n, 1
  {
    if n.HashNode? || n.flags.hash.Some? {
    } else {
      CollapsedOk(h, db, n, t);
      SealedOk(h, db, Collapsed(h, n, db, t), force, t);
    }
  }

  lemma {:induction false} SealedOk(h: Hasher, db: Db, out: HashOut, force: bool, t: Tree)
    requires Canon(t) && out.ref == NodeItem(h, t) && Keyed(h, out.puts)
    requires (out.cached.ShortNode? || out.cached.FullNode?) && Rep(h, db, WithFlag(out.cached, PLAIN), t, true)
    ensures var r := Sealed(h, out, force);
            && r.ref == (if force then Str(NodeHash(h, t)) else RefItem(h, t))
            && Rep(h, db, r.cached, t, force) && !r.cached.NilNode? && Keyed(h, r.puts)
            && (Backed(h, db, WithFlag(out.cached, PLAIN), t, false) ==> Backed(h, db, r.cached, t, false))
  {
    var r := Sealed(h, out, force);
    var f := if |Encode(out.ref)| < 32 && !force then PLAIN else Flag(Some(NodeHash(h, t)), false);
    ReFlag(h, db, WithFlag(out.cached, PLAIN), t, true, f, force);
  }

  lemma {:induction false} CollapsedOk(h: Hasher, db: Db, n: Node, t: Tree)
    requires Canon(t) && Rep(h, db, n, t, true) && (n.ShortNode? || n.FullNode?)
    ensures var out := Collapsed(h, n, db, t);
            && out.ref == NodeItem(h, t) && Keyed(h, out.puts)
            && (out.cached.ShortNode? || out.cached.FullNode?) && Rep(h, db, WithFlag(out.cached, PLAIN), t, true)
            && (Backed(h, db, n, t, false) ==> Backed(h, db, WithFlag(out.cached, PLAIN), t, false))
    decreases n, 0
  {
    if n.ShortNode? {
      ShortParts(h, db, n, t, true);
      NoHashFlag(h, PLAIN, t, true);
      KeyWellFormed(t.key, t.child);
      if n.val.ValueNode? {
        ShortMake(h, db, n.val, PLAIN, t, true);
      } else {
        ExtensionChild(h, db, n, t);
        HashedOk(h, db, n.val, false, t.child);
        ShortMake(h, db, Hashed(h, n.val, false, db, t.child).cached, PLAIN, t, true);
      }
    } else {
      FullChildren(h, db, n, t);
      HashedAllOk(h, db, n.children[..16], t.children[..16]);
      CollapsedFull(h, db, n, t);
    }
  }

  lemma {:induction false} CollapsedFull(h: Hasher, db: Db, n: Node, t: Tree)
    requires n.FullNode? && Canon(t) && Rep(h, db, n, t, true) && |n.children| == 17 && t.Full? && |t.children| == 17
    requires forall i :: 0 <= i < 16 ==> CanonOrNil(t.children[i]) && Rep(h, db, n.children[i], t.children[i], false)
    requires var r, ts := HashedAll(h, n.children[..16], db, t.children[..16]), t.children[..16];
             && (forall i :: 0 <= i < |ts| ==> Slottable(ts[i]))
             && r.refs == RefItems(h, ts) && Keyed(h, r.puts)
             && (forall i :: 0 <= i < 16 ==> Rep(h, db, r.cached[i], ts[i], false))
             && (forall i :: 0 <= i < 16 && Backed(h, db, n.children[i], t.children[i], false) ==>
                   Backed(h, db, r.cached[i], t.children[i], false))
    ensures var out := Collapsed(h, n, db, t);
            && out.ref == NodeItem(h, t) && Keyed(h, out.puts)
            && out.cached.FullNode? && Rep(h, db, WithFlag(out.cached, PLAIN), t, true)
            && (Backed(h, db, n, t, false) ==> Backed(h, db, WithFlag(out.cached, PLAIN), t, false))
  {
    hide Canon, Rep, HashedAll, RefItems, FlagOk, Backed, Collapsed, NodeItem, CanonOrNil;
    NoHashFlag(h, PLAIN, t, true);
    FullParts(h, db, n, t, true);
    CollapsedFullIs(h, db, n, t);
    FullItem(h, t);
    SlotSixteen(h, db, db, n, t);
    var r := HashedAll(h, n.children[..16], db, t.children[..16]);
    FullMake(h, db, r.cached + [n.children[16]], PLAIN, t, true);
  }

  lemma {:induction false} CollapsedFullIs(h: Hasher, db: Db, n: Node, t: Tree)
    requires n.FullNode? && Canon(t) && Rep(h, db, n, t, true)
    ensures t.Full? && |n.children| == |t.children| == 17
    ensures forall i :: 0 <= i < 16 ==> CanonOrNil(t.children[i]) && Rep(h, db, n.children[i], t.children[i], false)
    ensures var r := HashedAll(h, n.children[..16], db, t.children[..16]);
            var last := if t.children[16].Value? then t.children[16].v else [];
            Collapsed(h, n, db, t) ==
            HashOut(Items(r.refs + [Str(last)]), FullNode(r.cached + [n.children[16]], n.flags), r.puts)
  {
    hide Canon, Rep, HashedAll, CanonOrNil;
    FullChildren(h, db, n, t);
  }

  lemma {:induction false} FullItem(h: Hasher, t: Tree)
    requires Canon(t) && t.Full? && |t.children| == 17
    ensures forall i :: 0 <= i < 16 ==> Slottable(t.children[..16][i])
    ensures var last := if t.children[16].Value? then t.children[16].v else [];
            NodeItem(h, t) == Items(RefItems(h, t.children[..16]) + [Str(last)])
  {
    FullSlottable(t.children);
    RefsSplit(h, t.children, 16);
    hide RefItems;
  }

  lemma {:induction false} SlotSixteen(h: Hasher, db: Db, db': Db, n: Node, t: Tree)
    requires n.FullNode? && Canon(t) && Rep(h, db, n, t, true) && t.Full? && |n.children| == |t.children| == 17
    ensures Rep(h, db', n.children[16], t.children[16], false)
    ensures Backed(h, db', n.children[16], t.children[16], true) &&
            Backed(h, db', n.children[16], t.children[16], false)
  {
    FullChildren(h, db, n, t);
    hide Canon, Rep, Backed;
    if t.children[16].Value? {
      ValueRep(h, db', t.children[16].v, true);
      ValueRep(h, db', t.children[16].v, false);
    } else {
      NilRep(h, db', true);
      NilRep(h, db', false);
    }
  }

  lemma {:induction false} HashedAllOk(h: Hasher, db: Db, ns: seq<Node>, ts: seq<Tree>)
    requires |ns| == |ts| && forall i :: 0 <= i < |ns| ==> CanonOrNil(ts[i]) && Rep(h, db, ns[i], ts[i], false)
    ensures forall i :: 0 <= i < |ts| ==> Slottable(ts[i])
    ensures var r := HashedAll(h, ns, db, ts);
            && r.refs == RefItems(h, ts) && Keyed(h, r.puts)
            && (forall i :: 0 <= i < |ns| ==> Rep(h, db, r.cached[i], ts[i], false))
            && (forall i :: 0 <= i < |ns| && Backed(h, db, ns[i], ts[i], false) ==>
                  Backed(h, db, r.cached[i], ts[i], false))
    decreases ns
  {
    if ns != [] {
      hide Canon, Rep;
      HashedAllOk(h, db, ns[1..], ts[1..]);
      if ns[0].NilNode? {
        NilOnly(h, db, ts[0]);
        NilRep(h, db, true);
      } else {
        LiveChild(h, db, ns[0], ts[0]);
        HashedOk(h, db, ns[0], false, ts[0]);
      }
      HashedAllStep(h, db, ns, ts);
    }
  }

  lemma {:induction false} NilOnly(h: Hasher, db: Db, t: Tree)
    requires Rep(h, db, NilNode, t, false)
    ensures t.Nil?
  {
  }

  lemma {:induction false} HashedAllStep(h: Hasher, db: Db, ns: seq<Node>, ts: seq<Tree>)
    requires |ns| == |ts| > 0 && forall i :: 0 <= i < |ns| ==> CanonOrNil(ts[i]) && Rep(h, db, ns[i], ts[i], false)
    requires forall i :: 0 <= i < |ts| ==> Slottable(ts[i])
    requires var rest := HashedAll(h, ns[1..], db, ts[1..]);
             && rest.refs == RefItems(h, ts[1..]) && Keyed(h, rest.puts)
             && (forall i :: 0 <= i < |ns| - 1 ==> Rep(h, db, rest.cached[i], ts[1..][i], false))
             && (forall i :: 0 <= i < |ns| - 1 && Backed(h, db, ns[1..][i], ts[1..][i], false) ==>
                   Backed(h, db, rest.cached[i], ts[1..][i], false))
    requires if ns[0].NilNode? then ts[0].Nil? && Rep(h, db, NilNode, ts[0], false)
             else
               && Canon(ts[0]) && Rep(h, db, ns[0], ts[0], true)
               && var out := Hashed(h, ns[0], false, db, ts[0]);
                  && out.ref == RefItem(h, ts[0]) && Rep(h, db, out.cached, ts[0], false) && Keyed(h, out.puts)
                  && (Backed(h, db, ns[0], ts[0], false) ==> Backed(h, db, out.cached, ts[0], false))
    ensures var r := HashedAll(h, ns, db, ts);
            && r.refs == RefItems(h, ts) && Keyed(h, r.puts)
            && (forall i :: 0 <= i < |ns| ==> Rep(h, db, r.cached[i], ts[i], false))
            && (forall i :: 0 <= i < |ns| && Backed(h, db, ns[i], ts[i], false) ==>
                  Backed(h, db, r.cached[i], ts[i], false))
  {
    hide Canon, Rep, Hashed, CanonOrNil, Backed;
    var r, rest := HashedAll(h, ns, db, ts), HashedAll(h, ns[1..], db, ts[1..]);
    forall i | 0 <= i < |ns|
      ensures Rep(h, db, r.cached[i], ts[i], false)
      ensures Backed(h, db, ns[i], ts[i], false) ==> Backed(h, db, r.cached[i], ts[i], false)
    {
      if i > 0 { assert r.cached[i] == rest.cached[i - 1] && ts[1..][i - 1] == ts[i] && ns[1..][i - 1] == ns[i]; }
    }
  }

  // ---------------------------------------------------------------- what a commit leaves behind

  predicate Extends(db: Db, db': Db) {
    forall x :: x in db ==> x in db' && db'[x] == db[x]
  }

  predicate Covers(db: Db, puts: seq<Put>) {
    forall i :: 0 <= i < |puts| ==> puts[i].0 in db && db[puts[i].0] == puts[i].1
  }

  lemma {:induction false} CoversParts(db: Db, a: seq<Put>, b: seq<Put>)
    requires Covers(db, a + b)
    ensures Covers(db, a) && Covers(db, b)
  {
    assert forall i :: 0 <= i < |a| ==> (a + b)[i] == a[i];
    forall i | 0 <= i < |b| ensures b[i].0 in db && db[b[i].0] == b[i].1 { assert (a + b)[|a| + i] == b[i]; }
  }

  lemma {:induction false} StoredGrows(h: Hasher, db: Db, db': Db, t: Tree)
    requires Canon(t) && Extends(db, db')
    ensures Stored(h, db, t) ==> Stored(h, db', t)
    ensures ChildrenStored(h, db, t) ==> ChildrenStored(h, db', t)
    ensures Entered(h, db, t) ==> Entered(h, db', t)
    decreases t
  {
    match t
    case Short(_, c) =>
      if c.Full? { StoredGrows(h, db, db', c); }
      assert ChildrenStored(h, db, t) ==> ChildrenStored(h, db', t);
    case Full(cs) =>
      forall i | 0 <= i < 16 && !cs[i].Nil? ensures Stored(h, db, cs[i]) ==> Stored(h, db', cs[i]) {
        StoredGrows(h, db, db', cs[i]);
      }
      assert ChildrenStored(h, db, t) ==> ChildrenStored(h, db', t);
  }

  /** A backed node stays one as the database grows. */
  lemma {:induction false} BackedGrows(h: Hasher, db: Db, db': Db, n: Node, t: Tree, root: bool)
    requires Extends(db, db') && Rep(h, db, n, t, root) && Backed(h, db, n, t, true)
    ensures Rep(h, db', n, t, root) && Backed(h, db', n, t, true)
    decreases n
  {
    match n
    case NilNode =>
    case ValueNode(_) =>
    case HashNode(_) =>
      StoredGrows(h, db, db', t);
      StoredHonest(h, db', t);
    case ShortNode(k, c, f) =>
      StoredGrows(h, db, db', t);
      BackedGrows(h, db, db', c, t.child, false);
    case FullNode(cs, f) =>
      StoredGrows(h, db, db', t);
      forall i | 0 <= i < 17
        ensures Rep(h, db', cs[i], t.children[i], false) && Backed(h, db', cs[i], t.children[i], true)
      {
        BackedGrows(h, db, db', cs[i], t.children[i], false);
      }
  }

  /** Once the writes of hashing are in the database, the trie is stored and the node backed. */
  lemma {:induction false} HashedStored(h: Hasher, db: Db, db': Db, n: Node, force: bool, t: Tree)
    requires Canon(t) && Rep(h, db, n, t, force) && Rep(h, db, n, t, true) && Backed(h, db, n, t, true)
    requires Extends(db, db') && Covers(db', Hashed(h, n, force, db, t).puts)
    ensures Stored(h, db', t) && (force ==> Entered(h, db', t))
    ensures var c := Hashed(h, n, force, db, t).cached; Rep(h, db', c, t, force) && Backed(h, db', c, t, true)
    decreases n, 1
  {
    if n.HashNode? || n.flags.hash.Some? {
      BackedGrows(h, db, db', n, t, force);
      StoredGrows(h, db, db', t);
    } else {
      var out := Collapsed(h, n, db, t);
      CollapsedOk(h, db, n, t);
      SealedPuts(h, db', out, force);
      CollapsedStored(h, db, db', n, t);
      SealedStored(h, db', out, force, t);
    }
  }

  lemma {:induction false} SealedPuts(h: Hasher, db: Db, out: HashOut, force: bool)
    requires Covers(db, Sealed(h, out, force).puts)
    ensures Covers(db, out.puts)
  {
    CoversParts(db, out.puts, Sealed(h, out, force).puts[|out.puts|..]);
    assert out.puts + Sealed(h, out, force).puts[|out.puts|..] == Sealed(h, out, force).puts;
  }

  lemma {:induction false} SealedStored(h: Hasher, db: Db, out: HashOut, force: bool, t: Tree)
    requires Canon(t) && out.ref == NodeItem(h, t) && Covers(db, Sealed(h, out, force).puts)
    requires (out.cached.ShortNode? || out.cached.FullNode?) && Rep(h, db, WithFlag(out.cached, PLAIN), t, true)
    requires ChildrenStored(h, db, t) && Backed(h, db, WithFlag(out.cached, PLAIN), t, true)
    ensures Stored(h, db, t) && (force ==> Entered(h, db, t))
    ensures var c := Sealed(h, out, force).cached; Rep(h, db, c, t, force) && Backed(h, db, c, t, true)
  {
    var enc := Encode(out.ref);
    var embed := |enc| < 32 && !force;
    var f := if embed then PLAIN else Flag(Some(NodeHash(h, t)), false);
    if !embed {
      assert Sealed(h, out, force).puts[|out.puts|] == (h(enc), enc);
      assert Entered(h, db, t);
    }
    ReFlag(h, db, WithFlag(out.cached, PLAIN), t, true, f, force);
    ReFlagBacked(h, db, WithFlag(out.cached, PLAIN), t, f);
  }

  lemma {:induction false} ReFlagBacked(h: Hasher, db: Db, n: Node, t: Tree, f: Flag)
    requires Canon(t) && Backed(h, db, n, t, true) && (n.ShortNode? || n.FullNode?)
    requires f.hash.Some? ==> Entered(h, db, t) && ChildrenStored(h, db, t)
    ensures Backed(h, db, WithFlag(n, f), t, true)
  {
  }

  lemma {:induction false} CollapsedStored(h: Hasher, db: Db, db': Db, n: Node, t: Tree)
    requires Canon(t) && Rep(h, db, n, t, true) && (n.ShortNode? || n.FullNode?) && Backed(h, db, n, t, true)
    requires Extends(db, db') && Covers(db', Collapsed(h, n, db, t).puts)
    ensures ChildrenStored(h, db', t)
    ensures var c := WithFlag(Collapsed(h, n, db, t).cached, PLAIN);
            Rep(h, db', c, t, true) && Backed(h, db', c, t, true)
    decreases n, 0
  {
    NoHashFlag(h, PLAIN, t, true);
    if n.ShortNode? {
      ShortParts(h, db, n, t, true);
      KeyWellFormed(t.key, t.child);
      if n.val.ValueNode? {
        BackedGrows(h, db, db', n.val, t.child, false);
        ShortMake(h, db', n.val, PLAIN, t, true);
      } else {
        ExtensionChild(h, db, n, t);
        HashedStored(h, db, db', n.val, false, t.child);
        ShortMake(h, db', Hashed(h, n.val, false, db, t.child).cached, PLAIN, t, true);
      }
    } else {
      FullChildren(h, db, n, t);
      HashedAllStored(h, db, db', n.children[..16], t.children[..16]);
      CollapsedFullStored(h, db, db', n, t);
    }
  }

  lemma {:induction false} CollapsedFullStored(h: Hasher, db: Db, db': Db, n: Node, t: Tree)
    requires n.FullNode? && Canon(t) && Rep(h, db, n, t, true) && |n.children| == 17 && t.Full? && |t.children| == 17
    requires forall i :: 0 <= i < 16 ==> CanonOrNil(t.children[i]) && Rep(h, db, n.children[i], t.children[i], false)
    requires var r, ts := HashedAll(h, n.children[..16], db, t.children[..16]), t.children[..16];
             forall i :: 0 <= i < 16 ==> Kept(h, db', r.cached[i], ts[i])
    ensures ChildrenStored(h, db', t)
    ensures var c := WithFlag(Collapsed(h, n, db, t).cached, PLAIN);
            Rep(h, db', c, t, true) && Backed(h, db', c, t, true)
  {
    hide Canon, Rep, HashedAll, RefItems, FlagOk, Backed, Stored, ChildrenStored, Collapsed, CanonOrNil;
    NoHashFlag(h, PLAIN, t, true);
    CollapsedFullIs(h, db, n, t);
    SlotSixteen(h, db, db', n, t);
    var r := HashedAll(h, n.children[..16], db, t.children[..16]);
    var all := r.cached + [n.children[16]];
    forall i | 0 <= i < 17
      ensures Rep(h, db', all[i], t.children[i], false) && Backed(h, db', all[i], t.children[i], true)
    {
      if i < 16 { assert Kept(h, db', r.cached[i], t.children[..16][i]); }
    }
    FullMake(h, db', all, PLAIN, t, true);
    KeptStored(h, db', r.cached, t);
  }

  lemma {:induction false} KeptStored(h: Hasher, db: Db, ns: seq<Node>, t: Tree)
    requires Canon(t) && t.Full? && |t.children| == 17 && |ns| == 16
    requires forall i :: 0 <= i < 16 ==> CanonOrNil(t.children[i])
    requires forall i :: 0 <= i < 16 ==> Kept(h, db, ns[i], t.children[..16][i])
    ensures ChildrenStored(h, db, t)
  {
    hide Canon, Rep, Backed, Stored;
    forall i | 0 <= i < 16 && !t.children[i].Nil? ensures Canon(t.children[i]) && Stored(h, db, t.children[i]) {
      assert Kept(h, db, ns[i], t.children[..16][i]);
    }
  }

  lemma {:induction false} HashedAllStored(h: Hasher, db: Db, db': Db, ns: seq<Node>, ts: seq<Tree>)
    requires |ns| == |ts| && forall i :: 0 <= i < |ns| ==> CanonOrNil(ts[i]) && Rep(h, db, ns[i], ts[i], false)
    requires forall i :: 0 <= i < |ns| ==> Backed(h, db, ns[i], ts[i], true)
    requires Extends(db, db') && Covers(db', HashedAll(h, ns, db, ts).puts)
    ensures var r := HashedAll(h, ns, db, ts);
            forall i :: 0 <= i < |ns| ==> Kept(h, db', r.cached[i], ts[i])
    decreases ns
  {
    hide Canon, Rep, Backed, Stored, Hashed, CanonOrNil, Kept;
    if ns != [] {
      var r, rest := HashedAll(h, ns, db, ts), HashedAll(h, ns[1..], db, ts[1..]);
      if ns[0].NilNode? {
        NilOnly(h, db, ts[0]);
        NilKept(h, db', ts[0]);
      } else {
        LiveChild(h, db, ns[0], ts[0]);
        CoversParts(db', Hashed(h, ns[0], false, db, ts[0]).puts, rest.puts);
        HashedStored(h, db, db', ns[0], false, ts[0]);
        KeptMake(h, db', Hashed(h, ns[0], false, db, ts[0]).cached, ts[0]);
      }
      HashedAllStored(h, db, db', ns[1..], ts[1..]);
      forall i | 0 <= i < |ns| ensures Kept(h, db', r.cached[i], ts[i]) {
        if i > 0 { assert r.cached[i] == rest.cached[i - 1] && ts[1..][i - 1] == ts[i]; }
      }
    }
  }

  /** A hashed child stands for its trie, fully stored. */
  predicate Kept(h: Hasher, db: Db, n: Node, t: Tree) {
    Rep(h, db, n, t, false) && Backed(h, db, n, t, true) && (Canon(t) ==> Stored(h, db, t))
  }

  lemma {:induction false} KeptMake(h: Hasher, db: Db, n: Node, t: Tree)
    requires Rep(h, db, n, t, false) && Backed(h, db, n, t, true) && (Canon(t) ==> Stored(h, db, t))
    ensures Kept(h, db, n, t)
  {
  }

  lemma {:induction false} NilKept(h: Hasher, db: Db, t: Tree)
    requires t.Nil?
    ensures Kept(h, db, NilNode, t)
  {
    NilNotCanon(t);
    NilRep(h, db, true);
  }

  lemma {:induction false} NilNotCanon(t: Tree)
    requires t.Nil?
    ensures !Canon(t)
  {
  }

  /** The database after a list of writes. */
  function PutAll(db: Db, puts: seq<Put>): Db
    decreases |puts|
  {
    if puts == [] then db else PutAll(db[puts[0].0 := puts[0].1], puts[1..])
  }

  /** The first write that replaces different bytes, with the bytes it replaces. */
  function FirstClash(db: Db, puts: seq<Put>): Option<(Bytes, Bytes)>
    decreases |puts|
  {
    if puts == [] then None
    else
      var (x, b) := puts[0];
      if x in db && db[x] != b then Some((db[x], b)) else FirstClash(db[x := b], puts[1..])
  }

  /** Every entry is kept under its own hash. */
  predicate DbKeyed(h: Hasher, db: Db) {
    forall x :: x in db ==> x == h(db[x])
  }

  lemma {:induction false} PutAllKeeps(h: Hasher, db: Db, puts: seq<Put>)
    requires DbKeyed(h, db) && Keyed(h, puts)
    ensures DbKeyed(h, PutAll(db, puts))
    ensures FirstClash(db, puts).None? ==> Extends(db, PutAll(db, puts)) && Covers(PutAll(db, puts), puts)
    ensures FirstClash(db, puts).Some? ==> Collides(h, FirstClash(db, puts).value)
    decreases |puts|
  {
    if puts != [] {
      var (x, b) := puts[0];
      PutAllKeeps(h, db[x := b], puts[1..]);
    }
  }

  /** A node whose trie is stored is backed. */
  lemma {:induction false} StoredBacks(h: Hasher, db: Db, n: Node, t: Tree, root: bool)
    requires Rep(h, db, n, t, root) && (Canon(t) ==> Stored(h, db, t)) && (root && Canon(t) ==> Entered(h, db, t))
    ensures Backed(h, db, n, t, true)
    decreases n
  {
    match n
    case NilNode =>
    case ValueNode(_) =>
    case HashNode(_) =>
    case ShortNode(k, c, f) =>
      StoredBacks(h, db, c, t.child, false);
    case FullNode(cs, f) =>
      forall i | 0 <= i < 17 ensures Backed(h, db, cs[i], t.children[i], true) {
        StoredBacks(h, db, cs[i], t.children[i], false);
      }
  }

  /** Without the strict part too, a node goes on standing for its trie as the database grows. */
  lemma {:induction false} RepGrows(h: Hasher, db: Db, db': Db, n: Node, t: Tree, root: bool)
    requires Extends(db, db') && Rep(h, db, n, t, root) && Backed(h, db, n, t, false)
    ensures Rep(h, db', n, t, root) && Backed(h, db', n, t, false)
    decreases n
  {
    match n
    case NilNode =>
    case ValueNode(_) =>
    case HashNode(_) =>
      StoredGrows(h, db, db', t);
      StoredHonest(h, db', t);
    case ShortNode(k, c, f) =>
      RepGrows(h, db, db', c, t.child, false);
    case FullNode(cs, f) =>
      forall i | 0 <= i < 17
        ensures Rep(h, db', cs[i], t.children[i], false) && Backed(h, db', cs[i], t.children[i], false)
      {
        RepGrows(h, db, db', cs[i], t.children[i], false);
      }
  }

  /** Hashing does not look at the database. */
  lemma {:induction false} SameHashed(h: Hasher, db: Db, db': Db, n: Node, force: bool, t: Tree)
    requires Canon(t) && Rep(h, db, n, t, true) && Rep(h, db', n, t, true)
    ensures Hashed(h, n, force, db, t) == Hashed(h, n, force, db', t)
    decreases n, 1
  {
    if n.ShortNode? || n.FullNode? { SameCollapsed(h, db, db', n, t); }
  }

  lemma {:induction false} SameCollapsed(h: Hasher, db: Db, db': Db, n: Node, t: Tree)
    requires Canon(t) && Rep(h, db, n, t, true) && Rep(h, db', n, t, true) && (n.ShortNode? || n.FullNode?)
    ensures Collapsed(h, n, db, t) == Collapsed(h, n, db', t)
    decreases n, 0
  {
    if n.FullNode? {
      FullChildren(h, db, n, t);
      FullChildren(h, db', n, t);
      SameHashedAll(h, db, db', n.children[..16], t.children[..16]);
    } else if !n.val.ValueNode? {
      ExtensionChild(h, db, n, t);
      ExtensionChild(h, db', n, t);
      SameHashed(h, db, db', n.val, false, t.child);
    }
  }

  lemma {:induction false} SameHashedAll(h: Hasher, db: Db, db': Db, ns: seq<Node>, ts: seq<Tree>)
    requires |ns| == |ts| && forall i :: 0 <= i < |ns| ==> CanonOrNil(ts[i]) && Rep(h, db, ns[i], ts[i], false)
    requires forall i :: 0 <= i < |ns| ==> Rep(h, db', ns[i], ts[i], false)
    ensures HashedAll(h, ns, db, ts) == HashedAll(h, ns, db', ts)
    decreases ns
  {
    if ns != [] {
      SameHashedAll(h, db, db', ns[1..], ts[1..]);
      if !ns[0].NilNode? {
        LiveChild(h, db, ns[0], ts[0]);
        LiveChild(h, db', ns[0], ts[0]);
        SameHashed(h, db, db', ns[0], false, ts[0]);
      }
    }
  }
}
