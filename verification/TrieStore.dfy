/** trie/trie.go with hash references: nodes that stand for a trie, the database their hashes are
    looked up in, and lookup, insertion and deletion through both. */
module TrieStore {
  import opened Words
  import opened TrieEncoding
  import opened TrieShape
  import opened TrieNode

  type Hasher = Bytes -> Digest
  type Db = map<Bytes, Bytes>

  // ---------------------------------------------------------------- the database

  /** The database has the trie's encoding under its hash. */
  predicate Entered(h: Hasher, db: Db, t: Tree)
    requires Canon(t)
  {
    NodeHash(h, t) in db && db[NodeHash(h, t)] == NodeEnc(h, t)
  }

  /** What the database has under a hash the trie refers to is the encoding with that hash. */
  predicate Honest(h: Hasher, db: Db, t: Tree)
    requires Canon(t)
    decreases t
  {
    && (Big(h, t) && NodeHash(h, t) in db ==> Entered(h, db, t))
    && match t
       case Short(_, c) => c.Full? ==> Honest(h, db, c)
       case Full(_) => forall i :: 0 <= i < 16 && !t.children[i].Nil? ==> Honest(h, db, t.children[i])
  }

  /** Every hash below and including the trie can be resolved. */
  predicate Stored(h: Hasher, db: Db, t: Tree)
    requires Canon(t)
    decreases t, 1
  {
    (Big(h, t) ==> Entered(h, db, t)) && ChildrenStored(h, db, t)
  }

  predicate ChildrenStored(h: Hasher, db: Db, t: Tree)
    requires Canon(t)
    decreases t, 0
  {
    match t
    case Short(_, c) => c.Full? ==> Stored(h, db, c)
    case Full(_) => forall i :: 0 <= i < 16 && !t.children[i].Nil? ==> Stored(h, db, t.children[i])
  }

  // ---------------------------------------------------------------- nodes that stand for a trie

  /** A cached hash is that of the trie; below the root only tries referred to by hash have one. */
  predicate FlagOk(h: Hasher, f: Flag, t: Tree, root: bool)
    requires Canon(t)
  {
    f.hash.Some? ==> f.hash.value == NodeHash(h, t) && !f.dirty && (root || Big(h, t))
  }

  /** The node stands for the trie; a hash node for the trie with that hash, about which the
      database must tell no lies. */
  predicate Rep(h: Hasher, db: Db, n: Node, t: Tree, root: bool)
    decreases n
  {
    match n
    case NilNode => t.Nil?
    case ValueNode(v) => t == Value(v)
    case HashNode(x) => Canon(t) && Big(h, t) && x == NodeHash(h, t) && Storable(h, t) && Honest(h, db, t)
    case ShortNode(k, c, f) =>
      Canon(t) && t.Short? && t.key == k && Rep(h, db, c, t.child, false) && FlagOk(h, f, t, root)
    case FullNode(_, f) =>
      && Canon(t) && t.Full? && |n.children| == 17 && FlagOk(h, f, t, root)
      && (forall i :: 0 <= i < 17 ==> Rep(h, db, n.children[i], t.children[i], false))
  }

  /** Every hash node can be resolved; in the strict form so can every cached hash. */
  predicate Backed(h: Hasher, db: Db, n: Node, t: Tree, strict: bool)
    decreases n
  {
    match n
    case NilNode => true
    case ValueNode(_) => true
    case HashNode(_) => Canon(t) && Stored(h, db, t)
    case ShortNode(_, c, f) =>
      && Canon(t) && t.Short? && Backed(h, db, c, t.child, strict)
      && (strict && f.hash.Some? ==> Entered(h, db, t) && ChildrenStored(h, db, t))
    case FullNode(_, f) =>
      && Canon(t) && t.Full? && |n.children| == 17
      && (forall i :: 0 <= i < 17 ==> Backed(h, db, n.children[i], t.children[i], strict))
      && (strict && f.hash.Some? ==> Entered(h, db, t) && ChildrenStored(h, db, t))
  }

  /** What a stored trie refers to is there, so nothing else is. */
  lemma {:induction false} StoredHonest(h: Hasher, db: Db, t: Tree)
    requires Canon(t) && Stored(h, db, t)
    ensures Honest(h, db, t)
    decreases t
  {
    match t
    case Short(_, c) => if c.Full? { StoredHonest(h, db, c); }
    case Full(cs) =>
      forall i | 0 <= i < 16 && !cs[i].Nil? ensures Honest(h, db, cs[i]) { StoredHonest(h, db, cs[i]); }
  }

  /** A reference built by the decoder stands for its trie, and is backed when that is stored. */
  lemma {:induction false} RefNodeRep(h: Hasher, db: Db, t: Tree, strict: bool)
    requires Slottable(t) && (Canon(t) ==> Storable(h, t) && Honest(h, db, t))
    ensures Rep(h, db, RefNode(h, t), t, false)
    ensures Canon(t) && Stored(h, db, t) ==> Backed(h, db, RefNode(h, t), t, strict)
    ensures t.Nil? || t.Value? ==> Backed(h, db, RefNode(h, t), t, strict)
    decreases t, 1
  {
    if Canon(t) && !Big(h, t) { ShallowRep(h, db, t, None, strict, false); }
  }

  lemma {:induction false} ShallowRep(h: Hasher, db: Db, t: Tree, hash: Option<Bytes>, strict: bool, root: bool)
    requires Canon(t) && Storable(h, t) && Honest(h, db, t) && FlagOk(h, Flag(hash, false), t, root)
    ensures Rep(h, db, Shallow(h, t, hash), t, root)
    ensures ChildrenStored(h, db, t) && (hash.Some? ==> Entered(h, db, t)) ==>
              Backed(h, db, Shallow(h, t, hash), t, strict)
    decreases t, 0
  {
    match t
    case Short(k, c) =>
      KeyWellFormed(k, c);
      RefNodeRep(h, db, c, strict);
    case Full(cs) =>
      FullSlottable(cs);
      forall i | 0 <= i < 17
        ensures Rep(h, db, RefNodes(h, cs)[i], cs[i], false)
        ensures ChildrenStored(h, db, t) ==> Backed(h, db, RefNodes(h, cs)[i], cs[i], strict)
      {
        RefNodesAt(h, cs, i);
        RefNodeRep(h, db, cs[i], strict);
      }
  }

  datatype Found<+T> = Ok(value: T) | Missing | Panic

  /** resolveHash. */
  function Resolve(db: Db, x: Bytes): Found<Node> {
    if x !in db then Missing
    else
      var r := DecodeNode(Some(x), db[x]);
      if r.Done? then Ok(r.value) else Panic
  }

  /** Resolving a hash of a good trie yields a node for it, unless the entry is missing. */
  lemma {:induction false} ResolveOk(h: Hasher, db: Db, x: Bytes, t: Tree, strict: bool)
    requires Rep(h, db, HashNode(x), t, false)
    ensures Canon(t) && (if x in db then Resolve(db, x) == Ok(Shallow(h, t, Some(x))) else Resolve(db, x) == Missing)
    ensures Rep(h, db, Shallow(h, t, Some(x)), t, false)
    ensures Stored(h, db, t) ==> x in db && Backed(h, db, Shallow(h, t, Some(x)), t, strict)
  {
    ShallowRep(h, db, t, Some(x), strict, false);
    DecodeNodeOf(h, t, Some(x), []);
    assert NodeEnc(h, t) + [] == NodeEnc(h, t);
    hide Storable, Shallow, NodeEnc, Rep, Backed, DecodeNode;
  }

  // ---------------------------------------------------------------- lookup

  /** tryGet: the value and the node with the hashes on the way resolved. */
  function TryGet(ghost h: Hasher, db: Db, n: Node, key: Key, ghost t: Tree): Found<(Option<Bytes>, Node)>
    requires Rep(h, db, n, t, true) && Fits(t, key)
    decreases t, n.HashNode?
  {
    match n
    case NilNode => Ok((None, NilNode))
    case ValueNode(v) => Ok((Some(v), n))
    case ShortNode(k, c, f) =>
      if |key| < |k| || key[..|k|] != k then Ok((None, n))
      else
        ShortDown(h, db, n, key, t);
        var r := TryGet(h, db, c, key[|k|..], t.child);
        if r.Ok? then Ok((r.value.0, ShortNode(k, r.value.1, f))) else r
    case FullNode(cs, f) =>
      FullDown(h, db, n, key, t);
      var r := TryGet(h, db, cs[key[0]], key[1..], t.children[key[0]]);
      if r.Ok? then Ok((r.value.0, FullNode(cs[key[0] := r.value.1], f))) else r
    case HashNode(x) =>
      ResolveOk(h, db, x, t, false);
      var m := Resolve(db, x);
      if m.Ok? then RootRep(h, db, m.value, t); TryGet(h, db, m.value, key, t)
      else if m.Missing? then Missing
      else Panic
  }

  lemma {:induction false} RootRep(h: Hasher, db: Db, n: Node, t: Tree)
    requires Rep(h, db, n, t, false)
    ensures Rep(h, db, n, t, true)
  {
  }

  lemma {:induction false} ShortDown(h: Hasher, db: Db, n: Node, key: Key, t: Tree)
    requires n.ShortNode? && Rep(h, db, n, t, true) && Fits(t, key) && n.key <= key
    ensures t.Short? && Canon(t) && t.key == n.key && Terminated(key) && PrefixLen(key, n.key) == |n.key|
    ensures Rep(h, db, n.val, t.child, false) && Rep(h, db, n.val, t.child, true)
    ensures Fits(t.child, key[|n.key|..])
  {
    RootRep(h, db, n.val, t.child);
    PrefixLenUnique(key, n.key, |n.key|);
    FitsBelowShort(t.key, t.child, key);
  }

  lemma {:induction false} FullDown(h: Hasher, db: Db, n: Node, key: Key, t: Tree)
    requires n.FullNode? && Rep(h, db, n, t, true) && Fits(t, key)
    ensures t.Full? && Canon(t) && |t.children| == |n.children| == 17 && Terminated(key) && key[0] < 17
    ensures Rep(h, db, n.children[key[0]], t.children[key[0]], false) &&
            Rep(h, db, n.children[key[0]], t.children[key[0]], true)
    ensures Fits(t.children[key[0]], key[1..])
  {
    FitsBelowFull(t.children, key);
    RootRep(h, db, n.children[key[0]], t.children[key[0]]);
  }

  /** The outcome of an operation that turns a node for one trie into a node for another. */
  predicate Turns(h: Hasher, db: Db, n: Node, t: Tree, r: Found<Node>, t': Tree, root: bool) {
    && !r.Panic?
    && (Backed(h, db, n, t, false) ==> r.Ok?)
    && (r.Ok? ==> Rep(h, db, r.value, t', root) && (n.HashNode? || !r.value.HashNode?))
    && (r.Ok? && Backed(h, db, n, t, true) ==> Backed(h, db, r.value, t', true))
    && (r.Ok? && Backed(h, db, n, t, false) ==> Backed(h, db, r.value, t', false))
  }

  function NodePart(r: Found<(Option<Bytes>, Node)>): Found<Node> {
    if r.Ok? then Ok(r.value.1) else if r.Missing? then Missing else Panic
  }

  // The two node kinds taken apart and put together.

  lemma {:induction false} FullParts(h: Hasher, db: Db, n: Node, t: Tree, root: bool)
    requires n.FullNode? && Rep(h, db, n, t, root)
    ensures Canon(t) && t.Full? && |n.children| == |t.children| == 17 && FlagOk(h, n.flags, t, root)
    ensures forall i :: 0 <= i < 17 ==> Rep(h, db, n.children[i], t.children[i], false)
    ensures Backed(h, db, n, t, false) ==>
              forall i :: 0 <= i < 17 ==> Backed(h, db, n.children[i], t.children[i], false)
    ensures Backed(h, db, n, t, true) ==>
              && (forall i :: 0 <= i < 17 ==> Backed(h, db, n.children[i], t.children[i], true))
              && (n.flags.hash.Some? ==> Entered(h, db, t) && ChildrenStored(h, db, t))
  {
  }

  lemma {:induction false} FullMake(h: Hasher, db: Db, cs: seq<Node>, f: Flag, t: Tree, root: bool)
    requires Canon(t) && t.Full? && |cs| == |t.children| == 17 && FlagOk(h, f, t, root)
    requires forall i :: 0 <= i < 17 ==> Rep(h, db, cs[i], t.children[i], false)
    ensures Rep(h, db, FullNode(cs, f), t, root)
    ensures (forall i :: 0 <= i < 17 ==> Backed(h, db, cs[i], t.children[i], false)) ==>
              Backed(h, db, FullNode(cs, f), t, false)
    ensures (forall i :: 0 <= i < 17 ==> Backed(h, db, cs[i], t.children[i], true)) ==>
              (f.hash.Some? ==> Entered(h, db, t) && ChildrenStored(h, db, t)) ==>
                Backed(h, db, FullNode(cs, f), t, true)
  {
  }

  lemma {:induction false} ShortParts(h: Hasher, db: Db, n: Node, t: Tree, root: bool)
    requires n.ShortNode? && Rep(h, db, n, t, root)
    ensures Canon(t) && t.Short? && n.key == t.key && FlagOk(h, n.flags, t, root) && Rep(h, db, n.val, t.child, false)
    ensures Backed(h, db, n, t, false) ==> Backed(h, db, n.val, t.child, false)
    ensures Backed(h, db, n, t, true) ==>
              Backed(h, db, n.val, t.child, true) &&
              (n.flags.hash.Some? ==> Entered(h, db, t) && ChildrenStored(h, db, t))
  {
  }

  lemma {:induction false} ShortMake(h: Hasher, db: Db, c: Node, f: Flag, t: Tree, root: bool)
    requires Canon(t) && t.Short? && FlagOk(h, f, t, root) && Rep(h, db, c, t.child, false)
    ensures Rep(h, db, ShortNode(t.key, c, f), t, root)
    ensures Backed(h, db, c, t.child, false) ==> Backed(h, db, ShortNode(t.key, c, f), t, false)
    ensures Backed(h, db, c, t.child, true) && (f.hash.Some? ==> Entered(h, db, t) && ChildrenStored(h, db, t)) ==>
              Backed(h, db, ShortNode(t.key, c, f), t, true)
  {
  }

  lemma {:induction false} NoHashFlag(h: Hasher, f: Flag, t: Tree, root: bool)
    requires Canon(t)
    ensures f.hash.None? ==> FlagOk(h, f, t, root)
  {
  }

  /** A child turned is its parent turned, under a flag that is empty or still right. */
  lemma {:induction false} ShortTurns(h: Hasher, db: Db, n: Node, t: Tree, r: Found<Node>, c: Tree, f: Flag, root: bool)
    requires n.ShortNode? && Rep(h, db, n, t, true) && Turns(h, db, n.val, t.child, r, c, false)
    requires Canon(Short(t.key, c)) && (f.hash.None? || (f == n.flags && c == t.child && FlagOk(h, f, t, root)))
    ensures Turns(h, db, n, t, OverShort(n.key, r, f), Short(t.key, c), root)
  {
    hide Canon, FlagOk, Entered, ChildrenStored, Rep, Backed;
    ShortParts(h, db, n, t, true);
    NoHashFlag(h, f, Short(t.key, c), root);
    assert c == t.child ==> Short(t.key, c) == t;
    if r.Ok? { ShortMake(h, db, r.value, f, Short(t.key, c), root); }
  }

  function OverShort(k: Key, r: Found<Node>, f: Flag): Found<Node> {
    if r.Ok? then Ok(ShortNode(k, r.value, f)) else r
  }

  lemma {:induction false} FullTurns(h: Hasher, db: Db, n: Node, t: Tree, i: nat, r: Found<Node>, c: Tree, f: Flag,
                                     root: bool)
    requires n.FullNode? && Rep(h, db, n, t, true) && i < 17 && |t.children| == 17
    requires Turns(h, db, n.children[i], t.children[i], r, c, false) && Canon(Full(t.children[i := c]))
    requires f.hash.None? || (f == n.flags && c == t.children[i] && FlagOk(h, f, t, root))
    ensures Turns(h, db, n, t, OverFull(n.children, i, r, f), Full(t.children[i := c]), root)
  {
    hide Canon, FlagOk, Entered, ChildrenStored, Rep, Backed;
    FullParts(h, db, n, t, true);
    var t' := Full(t.children[i := c]);
    NoHashFlag(h, f, t', root);
    assert c == t.children[i] ==> t.children[i := c] == t.children && t' == t;
    if r.Ok? { FullMake(h, db, n.children[i := r.value], f, t', root); }
  }

  function OverFull(cs: seq<Node>, i: nat, r: Found<Node>, f: Flag): Found<Node>
    requires i < |cs|
  {
    if r.Ok? then Ok(FullNode(cs[i := r.value], f)) else r
  }

  /** A lookup answers as the trie does and leaves the trie as it was; it never panics, and misses
      an entry only where the database does. */
  lemma {:induction false} TryGetOk(h: Hasher, db: Db, n: Node, key: Key, t: Tree, root: bool)
    requires Rep(h, db, n, t, root) && Rep(h, db, n, t, true) && Fits(t, key)
    ensures var r := TryGet(h, db, n, key, t);
            && (r.Ok? ==> r.value.0 == Get(t, key))
            && Turns(h, db, n, t, NodePart(r), t, root)
    decreases t, n.HashNode?
  {
    hide Canon, Storable, Honest, FlagOk;
    match n
    case NilNode =>
    case ValueNode(v) =>
    case ShortNode(k, c, f) =>
      if !(|key| < |k| || key[..|k|] != k) {
        ShortDown(h, db, n, key, t);
        TryGetOk(h, db, c, key[|k|..], t.child, false);
        ShortTurns(h, db, n, t, NodePart(TryGet(h, db, c, key[|k|..], t.child)), t.child, f, root);
      }
    case FullNode(cs, f) =>
      FullDown(h, db, n, key, t);
      var i := key[0];
      TryGetOk(h, db, cs[i], key[1..], t.children[i], false);
      assert Full(t.children[i := t.children[i]]) == t;
      FullTurns(h, db, n, t, i, NodePart(TryGet(h, db, cs[i], key[1..], t.children[i])), t.children[i], f, root);
    case HashNode(x) =>
      TryGetHash(h, db, n, key, t, root);
  }

  lemma {:induction false} TryGetHash(h: Hasher, db: Db, n: Node, key: Key, t: Tree, root: bool)
    requires n.HashNode? && Rep(h, db, n, t, root) && Rep(h, db, n, t, true) && Fits(t, key)
    ensures var r := TryGet(h, db, n, key, t);
            && (r.Ok? ==> r.value.0 == Get(t, key))
            && Turns(h, db, n, t, NodePart(r), t, root)
    decreases t, n.HashNode?, 0
  {
    ResolveOk(h, db, n.h, t, true);
    ResolveOk(h, db, n.h, t, false);
    if n.h in db {
      var m := Shallow(h, t, Some(n.h));
      RootRep(h, db, m, t);
      TryGetOk(h, db, m, key, t, false);
      var r := TryGet(h, db, m, key, t);
      if r.Ok? { RootRep(h, db, r.value.1, t); }
    }
  }

  // ---------------------------------------------------------------- insertion

  const FRESH := Flag(None, true)
  const PLAIN := Flag(None, false)

  function NoNodes(): (r: seq<Node>)
    ensures |r| == 17 && forall i :: 0 <= i < 17 ==> r[i] == NilNode
  {
    seq(17, _ => NilNode)
  }

  /** insert(nil, k, n). */
  function NodeWrap(k: Key, n: Node): Node {
    if k == [] then n else ShortNode(k, n, FRESH)
  }

  function NodeFork(k: Key, c: Node, key: Key, v: Bytes, m: nat): Node
    requires m < |k| && m < |key| && k[m] < 17 && key[m] < 17
  {
    var one := NoNodes()[k[m] := NodeWrap(k[m + 1..], c)];
    var branch := FullNode(one[key[m] := NodeWrap(key[m + 1..], ValueNode(v))], PLAIN);
    if m == 0 then branch else ShortNode(key[..m], branch, FRESH)
  }

  function TryInsert(ghost h: Hasher, db: Db, n: Node, key: Key, v: Bytes, ghost t: Tree): Found<Node>
    requires Rep(h, db, n, t, true) && Fits(t, key)
    decreases t, n.HashNode?
  {
    if key == [] then Ok(ValueNode(v))
    else match n
      case NilNode => Ok(ShortNode(key, ValueNode(v), FRESH))
      case ValueNode(_) => Panic
      case ShortNode(k, c, f) =>
        var m := PrefixLen(key, k);
        if m == |k| then
          ShortDown(h, db, n, key, t);
          var r := TryInsert(h, db, c, key[m..], v, t.child);
          if r.Ok? then Ok(ShortNode(k, r.value, PLAIN)) else r
        else
          PartsInside(t.key, t.child, key);
          Ok(NodeFork(k, c, key, v, m))
      case FullNode(cs, f) =>
        FullDown(h, db, n, key, t);
        var r := TryInsert(h, db, cs[key[0]], key[1..], v, t.children[key[0]]);
        if r.Ok? then Ok(FullNode(cs[key[0] := r.value], FRESH)) else r
      case HashNode(x) =>
        ResolveOk(h, db, x, t, false);
        var m := Resolve(db, x);
        if m.Ok? then RootRep(h, db, m.value, t); TryInsert(h, db, m.value, key, v, t) else m
  }

  /** An insertion turns a node for a trie into a node for the trie with the key inserted. */
  lemma {:induction false} TryInsertOk(h: Hasher, db: Db, n: Node, key: Key, v: Bytes, t: Tree, root: bool)
    requires Rep(h, db, n, t, true) && Fits(t, key)
    ensures Turns(h, db, n, t, TryInsert(h, db, n, key, v, t), Insert(t, key, v), root)
    decreases t, n.HashNode?
  {
    hide Canon, Storable, Honest, FlagOk, NodeFork, Fork;
    if key != [] {
      InsertCanon(t, key, v);
      FitsNotValue(t, key);
      match n
      case NilNode =>
        NoHashFlag(h, FRESH, Insert(t, key, v), root);
        ValueRep(h, db, v, true);
        ValueRep(h, db, v, false);
        ShortMake(h, db, ValueNode(v), FRESH, Short(key, Value(v)), root);
      case ValueNode(_) =>
      case ShortNode(k, c, f) =>
        if PrefixLen(key, k) == |k| {
          ShortDown(h, db, n, key, t);
          TryInsertOk(h, db, c, key[|k|..], v, t.child, false);
          ShortTurns(h, db, n, t, TryInsert(h, db, c, key[|k|..], v, t.child), Insert(t.child, key[|k|..], v), PLAIN,
                     root);
        } else {
          PartsInside(t.key, t.child, key);
          NodeForkOk(h, db, n, key, v, t, root);
        }
      case FullNode(cs, f) =>
        FullDown(h, db, n, key, t);
        var i := key[0];
        TryInsertOk(h, db, cs[i], key[1..], v, t.children[i], false);
        FullTurns(h, db, n, t, i, TryInsert(h, db, cs[i], key[1..], v, t.children[i]),
                  Insert(t.children[i], key[1..], v), FRESH, root);
      case HashNode(x) =>
        TryInsertHash(h, db, n, key, v, t, root);
    }
  }

  lemma {:induction false} FitsNotValue(t: Tree, key: Key)
    requires Fits(t, key) && key != []
    ensures !t.Value?
  {
  }

  lemma {:induction false} TryInsertHash(h: Hasher, db: Db, n: Node, key: Key, v: Bytes, t: Tree, root: bool)
    requires n.HashNode? && Rep(h, db, n, t, true) && Fits(t, key) && key != []
    ensures Turns(h, db, n, t, TryInsert(h, db, n, key, v, t), Insert(t, key, v), root)
    decreases t, n.HashNode?, 0
  {
    ResolveOk(h, db, n.h, t, true);
    ResolveOk(h, db, n.h, t, false);
    if n.h in db {
      var m := Shallow(h, t, Some(n.h));
      RootRep(h, db, m, t);
      TryInsertOk(h, db, m, key, v, t, root);
    }
  }

  lemma {:induction false} NodeWrapOk(h: Hasher, db: Db, k: Key, c: Node, t: Tree, strict: bool)
    requires Rep(h, db, c, t, false) && (k == [] || Canon(Short(k, t)))
    ensures Rep(h, db, NodeWrap(k, c), Wrap(k, t), false)
    ensures Backed(h, db, c, t, strict) ==> Backed(h, db, NodeWrap(k, c), Wrap(k, t), strict)
  {
  }

  lemma {:induction false} NodeForkOk(h: Hasher, db: Db, n: Node, key: Key, v: Bytes, t: Tree, root: bool)
    requires n.ShortNode? && Rep(h, db, n, t, true) && Terminated(key) && PrefixLen(key, n.key) < |n.key|
    requires var m := PrefixLen(key, n.key);
             m < |key| && n.key[m] <= 16 && key[m] <= 16 && n.key[m] != key[m] && Nibbled(key[..m])
    ensures var m := PrefixLen(key, n.key);
            Turns(h, db, n, t, Ok(NodeFork(n.key, n.val, key, v, m)), Fork(t.key, t.child, key, v, m), root)
  {
    hide Canon, NodeWrap, PrefixLen, FlagOk, Entered, ChildrenStored, Rep, Backed, NoNodes, NoChildren;
    var m, k := PrefixLen(key, n.key), n.key;
    ShortParts(h, db, n, t, true);
    ForkCanon(k, t.child, key, v, m);
    NodeForkBranch(h, db, k, n.val, t.child, key, v, m, true);
    NodeForkBranch(h, db, k, n.val, t.child, key, v, m, false);
    var cs := NoChildren()[k[m] := Wrap(k[m + 1..], t.child)][key[m] := Wrap(key[m + 1..], Value(v))];
    var ns := NoNodes()[k[m] := NodeWrap(k[m + 1..], n.val)][key[m] := NodeWrap(key[m + 1..], ValueNode(v))];
    NoHashFlag(h, PLAIN, Full(cs), root);
    FullMake(h, db, ns, PLAIN, Full(cs), root);
    if m > 0 {
      NoHashFlag(h, PLAIN, Full(cs), false);
      FullMake(h, db, ns, PLAIN, Full(cs), false);
      NoHashFlag(h, FRESH, Short(key[..m], Full(cs)), root);
      ShortMake(h, db, FullNode(ns, PLAIN), FRESH, Short(key[..m], Full(cs)), root);
    }
  }

  lemma {:induction false} NilRep(h: Hasher, db: Db, strict: bool)
    ensures Rep(h, db, NilNode, Nil, false) && Backed(h, db, NilNode, Nil, strict)
  {
  }

  lemma {:induction false} ValueRep(h: Hasher, db: Db, v: Bytes, strict: bool)
    ensures Rep(h, db, ValueNode(v), Value(v), false) && Backed(h, db, ValueNode(v), Value(v), strict)
  {
  }

  lemma {:induction false} NodeForkBranch(h: Hasher, db: Db, k: Key, c: Node, t: Tree, key: Key, v: Bytes, m: nat,
                                          strict: bool)
    requires Canon(Short(k, t)) && Terminated(key) && Rep(h, db, c, t, false)
    requires m < |k| && m < |key| && k[m] <= 16 && key[m] <= 16 && k[m] != key[m] && Nibbled(key[..m])
    ensures var ns := NoNodes()[k[m] := NodeWrap(k[m + 1..], c)][key[m] := NodeWrap(key[m + 1..], ValueNode(v))];
            var cs := NoChildren()[k[m] := Wrap(k[m + 1..], t)][key[m] := Wrap(key[m + 1..], Value(v))];
            && Canon(Full(cs)) && (forall i :: 0 <= i < 17 ==> Rep(h, db, ns[i], cs[i], false))
            && (Backed(h, db, c, t, strict) ==> forall i :: 0 <= i < 17 ==> Backed(h, db, ns[i], cs[i], strict))
  {
    WrapFits(k, t, m);
    WrapFits(key, Value(v), m);
    NodeWrapOk(h, db, k[m + 1..], c, t, strict);
    NodeWrapOk(h, db, key[m + 1..], ValueNode(v), Value(v), strict);
    ForkBranchCanon(k, t, key, v, m);
    hide Canon, NodeWrap, Wrap, NoNodes, NoChildren, Backed, Rep;
    assert Rep(h, db, NilNode, Nil, false) && Backed(h, db, NilNode, Nil, strict) by { NilRep(h, db, strict); }
    assert Backed(h, db, ValueNode(v), Value(v), strict) by { ValueRep(h, db, v, strict); }
  }

  // ---------------------------------------------------------------- deletion

  /** The child scan over nodes, as OnlyChild over tries. */
  function OnlyNode(ns: seq<Node>): (pos: int)
    ensures pos == -1 || pos == -2 || 0 <= pos < |ns|
  {
    if |ns| == 0 then -1
    else
      var n := |ns| - 1;
      var p := OnlyNode(ns[..n]);
      if ns[n].NilNode? then p else if p == -1 then n else -2
  }

  /** The loop of delete, with its early exit on a second live child. */
  method ScanChildren(ns: seq<Node>) returns (pos: int)
    ensures pos == OnlyNode(ns)
  {
    pos := -1;
    var i := 0;
    while i < |ns|
      invariant 0 <= i <= |ns| && pos == OnlyNode(ns[..i]) && pos != -2
    {
      assert ns[..i + 1][..i] == ns[..i];
      if !ns[i].NilNode? {
        if pos == -1 {
          pos := i;
        } else {
          StaysTwo(ns, i + 1);
          pos := -2;
          return;
        }
      }
      i := i + 1;
    }
    assert ns[..|ns|] == ns;
  }

  lemma {:induction false} StaysTwo(ns: seq<Node>, i: nat)
    requires i <= |ns| && OnlyNode(ns[..i]) == -2
    ensures OnlyNode(ns) == -2
    decreases |ns| - i
  {
    if i == |ns| {
      assert ns[..i] == ns;
    } else {
      assert ns[..i + 1][..i] == ns[..i];
      StaysTwo(ns, i + 1);
    }
  }

  lemma {:induction false} SameScan(h: Hasher, db: Db, ns: seq<Node>, cs: seq<Tree>)
    requires |ns| == |cs| && forall i :: 0 <= i < |ns| ==> Rep(h, db, ns[i], cs[i], false)
    ensures OnlyNode(ns) == OnlyChild(cs)
  {
    if |ns| > 0 {
      var n := |ns| - 1;
      SameScan(h, db, ns[..n], cs[..n]);
    }
  }

  /** A branch after a deletion; a single child is resolved to see whether it is a short node. */
  function CollapseNode(db: Db, ns: seq<Node>): Found<Node>
    requires |ns| == 17
  {
    var pos := OnlyNode(ns);
    if pos < 0 then Ok(FullNode(ns, PLAIN))
    else if pos == 16 then Ok(ShortNode([16], ns[16], PLAIN))
    else
      var c := if ns[pos].HashNode? then Resolve(db, ns[pos].h) else Ok(ns[pos]);
      if !c.Ok? then c
      else if c.value.ShortNode? then Ok(ShortNode([pos] + c.value.key, c.value.val, PLAIN))
      else Ok(ShortNode([pos], ns[pos], PLAIN))
  }

  function TryDelete(ghost h: Hasher, db: Db, n: Node, key: Key, ghost t: Tree): Found<Node>
    requires Rep(h, db, n, t, true) && Fits(t, key)
    decreases t, n.HashNode?
  {
    match n
    case NilNode => Ok(NilNode)
    case ValueNode(_) => Ok(NilNode)
    case ShortNode(k, c, f) =>
      var m := PrefixLen(key, k);
      if m < |k| then Ok(n)
      else if m == |key| then Ok(NilNode)
      else
        ShortDown(h, db, n, key, t);
        var r := TryDelete(h, db, c, key[|k|..], t.child);
        if r.Ok? then Ok(MergeNode(k, r.value)) else r
    case FullNode(cs, f) =>
      FullDown(h, db, n, key, t);
      var r := TryDelete(h, db, cs[key[0]], key[1..], t.children[key[0]]);
      if r.Ok? then CollapseNode(db, cs[key[0] := r.value]) else r
    case HashNode(x) =>
      ResolveOk(h, db, x, t, false);
      var m := Resolve(db, x);
      if m.Ok? then RootRep(h, db, m.value, t); TryDelete(h, db, m.value, key, t) else m
  }

  function MergeNode(k: Key, child: Node): Node {
    if child.ShortNode? then ShortNode(k + child.key, child.val, PLAIN) else ShortNode(k, child, PLAIN)
  }

  lemma {:induction false} MergeTurns(h: Hasher, db: Db, n: Node, t: Tree, r: Found<Node>, c: Tree, root: bool)
    requires n.ShortNode? && Rep(h, db, n, t, true) && Turns(h, db, n.val, t.child, r, c, false)
    requires Canon(Merge(t.key, c)) && (r.Ok? ==> !r.value.HashNode?)
    ensures Turns(h, db, n, t, if r.Ok? then Ok(MergeNode(n.key, r.value)) else r, Merge(t.key, c), root)
  {
    ShortParts(h, db, n, t, true);
    if r.Ok? {
      NoHashFlag(h, PLAIN, Merge(t.key, c), root);
      if r.value.ShortNode? {
        ShortParts(h, db, r.value, c, false);
        hide Canon, FlagOk, Entered, ChildrenStored, Rep, Backed;
        ShortMake(h, db, r.value.val, PLAIN, Short(t.key + c.key, c.child), root);
      } else {
        assert !c.Short?;
        hide Canon, FlagOk, Entered, ChildrenStored, Rep, Backed;
        ShortMake(h, db, r.value, PLAIN, Short(t.key, c), root);
      }
    }
  }

  /** What collapsing the branch does to a backed list of children. */
  lemma {:induction false} CollapseNodeOk(h: Hasher, db: Db, ns: seq<Node>, cs: seq<Tree>, root: bool, strict: bool)
    requires |ns| == |cs| == 17 && Slots(cs) && OnlyChild(cs) != -1
    requires forall i :: 0 <= i < 17 ==> Rep(h, db, ns[i], cs[i], false)
    ensures var r := CollapseNode(db, ns);
            && !r.Panic? && (r.Ok? ==> Rep(h, db, r.value, Collapse(cs), root) && !r.value.HashNode?)
            && ((forall i :: 0 <= i < 17 ==> Backed(h, db, ns[i], cs[i], strict)) ==>
                  r.Ok? && Backed(h, db, r.value, Collapse(cs), strict))
  {
    SameScan(h, db, ns, cs);
    CollapseCanon(cs);
    NoHashFlag(h, PLAIN, Collapse(cs), root);
    var pos := OnlyChild(cs);
    if pos < 0 {
      FullMake(h, db, ns, PLAIN, Full(cs), root);
    } else if pos == 16 {
      ShortMake(h, db, ns[16], PLAIN, Short([16], cs[16]), root);
    } else {
      CollapseOnto(h, db, ns[pos], cs[pos], pos, root, strict);
    }
  }

  lemma {:induction false} CollapseOnto(h: Hasher, db: Db, n: Node, t: Tree, pos: nat, root: bool, strict: bool)
    requires pos < 16 && Canon(t) && Rep(h, db, n, t, false)
    requires var t' := if t.Short? then Short([pos] + t.key, t.child) else Short([pos], t);
             Canon(t') && FlagOk(h, PLAIN, t', root)
    ensures var t' := if t.Short? then Short([pos] + t.key, t.child) else Short([pos], t);
            var c := if n.HashNode? then Resolve(db, n.h) else Ok(n);
            && !c.Panic? && (Backed(h, db, n, t, strict) ==> c.Ok?)
            && (c.Ok? ==>
                  && c.value.ShortNode? == t.Short?
                  && var r := if c.value.ShortNode? then ShortNode([pos] + c.value.key, c.value.val, PLAIN)
                              else ShortNode([pos], n, PLAIN);
                     Rep(h, db, r, t', root) && (Backed(h, db, n, t, strict) ==> Backed(h, db, r, t', strict)))
  {
    var t' := if t.Short? then Short([pos] + t.key, t.child) else Short([pos], t);
    var c := if n.HashNode? then Resolve(db, n.h) else Ok(n);
    if n.HashNode? { ResolveOk(h, db, n.h, t, strict); }
    if c.Ok? {
      assert Rep(h, db, c.value, t, false) && (Backed(h, db, n, t, strict) ==> Backed(h, db, c.value, t, strict));
      assert c.value.ShortNode? == t.Short? && !c.value.HashNode?;
      hide Canon, FlagOk, Entered, ChildrenStored, Rep, Backed, Shallow, Stored, Resolve;
      if t.Short? {
        ShortParts(h, db, c.value, t, false);
        ShortMake(h, db, c.value.val, PLAIN, t', root);
      } else {
        ShortMake(h, db, n, PLAIN, t', root);
      }
    }
  }

  /** After a deletion in slot i a single live child is another one. */
  lemma {:induction false} OnlyOther(cs: seq<Tree>, i: nat, t: Tree)
    requires TwoLive(cs) && i < |cs| && OnlyChild(cs[i := t]) >= 0
    ensures OnlyChild(cs[i := t]) != i
  {
    var a, b :| 0 <= a < b < |cs| && !cs[a].Nil? && !cs[b].Nil?;
    var other := if a == i then b else a;
    assert !cs[i := t][other].Nil?;
  }

  /** A deletion turns a node for a trie into a node for the trie without the key. */
  lemma {:induction false} TryDeleteOk(h: Hasher, db: Db, n: Node, key: Key, t: Tree, root: bool)
    requires Rep(h, db, n, t, root) && Rep(h, db, n, t, true) && Fits(t, key)
    ensures Turns(h, db, n, t, TryDelete(h, db, n, key, t), Delete(t, key), root)
    ensures TryDelete(h, db, n, key, t).Ok? ==> !TryDelete(h, db, n, key, t).value.HashNode?
    decreases t, n.HashNode?
  {
    hide Canon, Storable, Rep, Turns, Delete, TryDelete, PrefixLen, Fits;
    match n
    case NilNode =>
      TryDeleteStops(h, db, n, key, t, root);
    case ValueNode(_) =>
      TryDeleteStops(h, db, n, key, t, root);
    case ShortNode(k, c, f) =>
      if PrefixLen(key, k) == |k| < |key| {
        ShortDown(h, db, n, key, t);
        ShortTerminated(h, db, n, key, t);
        TryDeleteOk(h, db, c, key[|k|..], t.child, false);
        TryDeleteShort(h, db, n, key, t, root);
      } else {
        TryDeleteStops(h, db, n, key, t, root);
      }
    case FullNode(cs, f) =>
      FullTerminated(h, db, n, key, t);
      FullDown(h, db, n, key, t);
      TryDeleteOk(h, db, cs[key[0]], key[1..], t.children[key[0]], false);
      TryDeleteFull(h, db, n, key, t, root);
    case HashNode(x) =>
      TryDeleteHash(h, db, n, key, t, root);
  }

  lemma {:induction false} ShortTerminated(h: Hasher, db: Db, n: Node, key: Key, t: Tree)
    requires n.ShortNode? && Rep(h, db, n, t, true) && Fits(t, key)
    ensures t.Short? && Canon(t) && t.key == n.key && Terminated(key)
  {
  }

  lemma {:induction false} FullTerminated(h: Hasher, db: Db, n: Node, key: Key, t: Tree)
    requires n.FullNode? && Rep(h, db, n, t, true) && Fits(t, key)
    ensures t.Full? && Canon(t) && Terminated(key)
  {
  }

  /** Nothing left to delete, or nothing there. */
  lemma {:induction false} TryDeleteStops(h: Hasher, db: Db, n: Node, key: Key, t: Tree, root: bool)
    requires Rep(h, db, n, t, root) && Rep(h, db, n, t, true) && Fits(t, key)
    requires n.NilNode? || n.ValueNode? || (n.ShortNode? && !(PrefixLen(key, n.key) == |n.key| < |key|))
    ensures Turns(h, db, n, t, TryDelete(h, db, n, key, t), Delete(t, key), root)
    ensures TryDelete(h, db, n, key, t).Ok? ==> !TryDelete(h, db, n, key, t).value.HashNode?
  {
    hide Canon, Storable, Honest, FlagOk, CollapseNode, Collapse, Merge, MergeNode, Entered, ChildrenStored;
  }

  lemma {:induction false} TryDeleteShort(h: Hasher, db: Db, n: Node, key: Key, t: Tree, root: bool)
    requires n.ShortNode? && Rep(h, db, n, t, true) && Fits(t, key) && t.Short? && Canon(t) && t.key == n.key
    requires Terminated(key) && PrefixLen(key, n.key) == |n.key| < |key|
    requires Rep(h, db, n.val, t.child, true) && Fits(t.child, key[|n.key|..])
    requires var r := TryDelete(h, db, n.val, key[|n.key|..], t.child);
             Turns(h, db, n.val, t.child, r, Delete(t.child, key[|n.key|..]), false) && (r.Ok? ==> !r.value.HashNode?)
    ensures Turns(h, db, n, t, TryDelete(h, db, n, key, t), Delete(t, key), root)
    ensures TryDelete(h, db, n, key, t).Ok? ==> !TryDelete(h, db, n, key, t).value.HashNode?
  {
    hide Canon, Turns, Rep, Merge, PrefixLen;
    DeleteMerges(t, key);
    MergeTurns(h, db, n, t, TryDelete(h, db, n.val, key[|n.key|..], t.child), Delete(t.child, key[|n.key|..]), root);
  }

  lemma {:induction false} DeleteMerges(t: Tree, key: Key)
    requires t.Short? && Canon(t) && Terminated(key) && PrefixLen(key, t.key) == |t.key| < |key|
    ensures Fits(t.child, key[|t.key|..])
    ensures Delete(t, key) == Merge(t.key, Delete(t.child, key[|t.key|..])) && Canon(Delete(t, key))
  {
    DeleteCanon(t, key);
    FitsBelowShort(t.key, t.child, key);
  }

  lemma {:induction false} TryDeleteFull(h: Hasher, db: Db, n: Node, key: Key, t: Tree, root: bool)
    requires n.FullNode? && Rep(h, db, n, t, root) && Rep(h, db, n, t, true) && Fits(t, key)
    requires t.Full? && |n.children| == |t.children| == 17 && |key| > 0 && key[0] < 17
    requires var i := key[0];
             && Rep(h, db, n.children[i], t.children[i], true) && Fits(t.children[i], key[1..])
             && Turns(h, db, n.children[i], t.children[i], TryDelete(h, db, n.children[i], key[1..], t.children[i]),
                      Delete(t.children[i], key[1..]), false)
    ensures Turns(h, db, n, t, TryDelete(h, db, n, key, t), Delete(t, key), root)
  {
    var i := key[0];
    FitsBelowFull(t.children, key);
    var r, c := TryDelete(h, db, n.children[i], key[1..], t.children[i]), Delete(t.children[i], key[1..]);
    DeleteCanon(t.children[i], key[1..]);
    var cs := t.children[i := c];
    assert Slots(cs);
    KeepsOne(t.children, i, c);
    if OnlyChild(cs) >= 0 {
      OnlyOther(t.children, i, c);
    }
    assert Delete(t, key) == Collapse(cs);
    assert TryDelete(h, db, n, key, t) == if r.Ok? then CollapseNode(db, n.children[i := r.value]) else r;
    TryDeleteGlue(h, db, n, t, i, r, c, root);
  }

  lemma {:induction false} TryDeleteGlue(h: Hasher, db: Db, n: Node, t: Tree, i: nat, r: Found<Node>, c: Tree,
                                         root: bool)
    requires n.FullNode? && Rep(h, db, n, t, true) && t.Full? && |n.children| == |t.children| == 17 && i < 17
    requires Turns(h, db, n.children[i], t.children[i], r, c, false)
    requires var cs := t.children[i := c];
             Slots(cs) && OnlyChild(cs) != -1
    ensures Turns(h, db, n, t, if r.Ok? then CollapseNode(db, n.children[i := r.value]) else r,
                  Collapse(t.children[i := c]), root)
  {
    hide Canon, FlagOk, Entered, ChildrenStored, Rep, Backed, CollapseNode, Collapse, Slots, OnlyChild;
    FullParts(h, db, n, t, true);
    if r.Ok? {
      var ns, cs := n.children[i := r.value], t.children[i := c];
      CollapseNodeOk(h, db, ns, cs, root, true);
      CollapseNodeOk(h, db, ns, cs, root, false);
      assert Backed(h, db, n, t, true) ==> forall j :: 0 <= j < 17 ==> Backed(h, db, ns[j], cs[j], true);
      assert Backed(h, db, n, t, false) ==> forall j :: 0 <= j < 17 ==> Backed(h, db, ns[j], cs[j], false);
    }
  }

  lemma {:induction false} TryDeleteHash(h: Hasher, db: Db, n: Node, key: Key, t: Tree, root: bool)
    requires n.HashNode? && Rep(h, db, n, t, true) && Fits(t, key)
    ensures Turns(h, db, n, t, TryDelete(h, db, n, key, t), Delete(t, key), root)
    ensures TryDelete(h, db, n, key, t).Ok? ==> !TryDelete(h, db, n, key, t).value.HashNode?
    decreases t, n.HashNode?, 0
  {
    ResolveOk(h, db, n.h, t, true);
    ResolveOk(h, db, n.h, t, false);
    if n.h in db {
      var m := Shallow(h, t, Some(n.h));
      RootRep(h, db, m, t);
      TryDeleteOk(h, db, m, key, t, false);
      var r := TryDelete(h, db, m, key, t);
      if r.Ok? && root { RootRep(h, db, r.value, Delete(t, key)); }
    }
  }
}
