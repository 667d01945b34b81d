/** trie/trie.go, Trie: the object whose root the operations replace, its hash, its commits and its
    reopening, over a database of encodings. */
module TrieApi {
  import opened Words
  import opened TrieEncoding
  import opened TrieShape
  import opened TrieNode
  import opened TrieStore
  import opened TrieHasher
  import opened TrieCache
  import opened TrieSize
  import Rlp
  import TrieProof

  class Trie {
    const h: Hasher
    var root: Node
    var db: Db

    /** The trie the root stands for, and the map that trie implements. */
    ghost var tree: Tree
    ghost var contents: map<Bytes, Bytes>

    ghost predicate Valid()
      reads this
    {
      && CanonOrNil(tree) && Implements(tree, contents) && DbKeyed(h, db)
      && Rep(h, db, root, tree, true) && Backed(h, db, root, tree, false) && Closed(h, root, tree, false)
    }

    /** Every cached hash has its entry in the database, as it has when no Hash came between a
        change and the last Commit. */
    ghost predicate Clean()
      reads this
    {
      Entries(h, db, [], root, tree)
    }

    constructor (hasher: Hasher, database: Db)
      requires DbKeyed(hasher, database)
      ensures Valid() && Clean() && h == hasher && db == database && root == NilNode && contents == map[]
    {
      h, root, db := hasher, NilNode, database;
      tree, contents := Nil, map[];
    }

    /** New: the zero hash opens an empty trie, any other is looked up. Opening the hash of a
        stored trie gives that trie. */
    static method New(hasher: Hasher, hash: Digest, database: Db, ghost t: Tree, ghost m: map<Bytes, Bytes>)
      returns (r: Found<Trie>)
      requires DbKeyed(hasher, database)
      ensures hash != EMPTY_HASH && hash !in database ==> r == Missing
      ensures hash == EMPTY_HASH ==> r.Ok? && r.value.Valid() && r.value.contents == map[]
      ensures hash != EMPTY_HASH && Openable(hasher, hash, database, t) && Implements(t, m) ==>
                && r.Ok? && fresh(r.value) && r.value.Valid() && r.value.Clean()
                && r.value.h == hasher && r.value.db == database && r.value.tree == t && r.value.contents == m
    {
      hide Implements, Rep, Backed, Openable, Closed, Entries;
      var trie := new Trie(hasher, database);
      if hash != EMPTY_HASH {
        var n := Resolve(database, hash);
        if Openable(hasher, hash, database, t) { OpenRoot(hasher, hash, database, t); }
        if n.Missing? { return Missing; }
        if n.Panic? { return Panic; }
        trie.root := n.value;
        trie.tree, trie.contents := t, m;
      }
      return Ok(trie);
    }

    method TryGet(key: Bytes) returns (r: Found<Option<Bytes>>)
      requires Valid()
      modifies this`root
      ensures Valid() && r == Ok(Lookup(contents, key))
      ensures old(Clean()) ==> Clean()
    {
      hide Rep, Backed, Canon, Closed, Entries;
      var k := KeyBytesToHex(key);
      TryGetOk(h, db, root, k, tree, true);
      GetCloses(h, db, root, k, tree, false);
      CleanBacked(h, db, root, tree);
      assert Get(tree, KeyHex(key)) == Lookup(contents, key);
      var v := TrieStore.TryGet(h, db, root, k, tree);
      root := v.value.1;
      CleanBacked(h, db, root, tree);
      return Ok(v.value.0);
    }

    method TryUpdate(key: Bytes, value: Bytes) returns (r: Found<()>)
      requires Valid()
      modifies this`root, this`tree, this`contents
      ensures Valid() && r.Ok? && contents == old(contents)[key := value]
      ensures old(Clean()) ==> Clean()
    {
      hide Rep, Backed, Canon, Implements, Closed, Entries;
      var k := KeyBytesToHex(key);
      TryInsertOk(h, db, root, k, value, tree, true);
      InsertCloses(h, db, root, k, value, tree);
      CleanBacked(h, db, root, tree);
      ApplyImplements(tree, contents, Update(key, value));
      var n := TryInsert(h, db, root, k, value, tree);
      root := n.value;
      tree, contents := Apply(tree, Update(key, value)), contents[key := value];
      CleanBacked(h, db, root, tree);
      return Ok(());
    }

    method TryDelete(key: Bytes) returns (r: Found<()>)
      requires Valid()
      modifies this`root, this`tree, this`contents
      ensures Valid() && r.Ok? && contents == old(contents) - {key}
      ensures old(Clean()) ==> Clean()
    {
      hide Rep, Backed, Canon, Implements, Closed, Entries;
      var k := KeyBytesToHex(key);
      TryDeleteOk(h, db, root, k, tree, true);
      DeleteCloses(h, db, root, k, tree);
      CleanBacked(h, db, root, tree);
      ApplyImplements(tree, contents, Remove(key));
      var n := TrieStore.TryDelete(h, db, root, k, tree);
      root := n.value;
      tree, contents := Apply(tree, Remove(key)), contents - {key};
      CleanBacked(h, db, root, tree);
      return Ok(());
    }

    /** Hash panics on an empty trie. The nodes come back with their hashes cached, so the next
        Commit takes them to be written. */
    method Hash() returns (d: Digest)
      requires Valid() && !root.NilNode?
      modifies this`root
      ensures Valid() && Canon(tree) && d == NodeHash(h, tree)
    {
      hide Rep, Backed, Implements, Closed;
      RootIsCanon(h, db, root, tree);
      HashedOk(h, db, root, true, tree);
      HashedCloses(h, db, root, true, tree);
      var out := Hashed(h, root, true, db, tree);
      root := out.cached;
      ClosedLess(h, root, tree, true);
      d := out.ref.b;
    }

    /** Commit returns the root hash, or zero for an empty trie. Unless a write replaces other
        bytes, and then those are a collision, the trie is stored whole exactly when every hash
        cached before has its entry in the database or among the writes; it is clean afterwards. */
    method Commit() returns (d: Digest)
      requires Valid()
      modifies this`root, this`db
      ensures root.NilNode? == old(root.NilNode?) && DbKeyed(h, db)
      ensures old(root.NilNode?) ==> d == EMPTY_HASH && unchanged(this)
      ensures !old(root.NilNode?) ==>
                && Canon(tree) && d == NodeHash(h, tree)
                && var puts := Hashed(h, old(root), true, old(db), tree).puts;
                   && db == PutAll(old(db), puts)
                   && (FirstClash(old(db), puts).Some? ==> Collides(h, FirstClash(old(db), puts).value))
                   && (FirstClash(old(db), puts).None? ==>
                         && Valid()
                         && (Entered(h, db, tree) && Stored(h, db, tree) <==> old(Entries(h, db, puts, root, tree)))
                         && (Entered(h, db, tree) && Stored(h, db, tree) <==> Clean())
                         && (old(Clean()) ==> Clean()))
    {
      hide Rep, Backed, Implements, Hashed, Canon, Closed, Entries, Stored, Entered;
      if root.NilNode? { return EMPTY_HASH; }
      RootIsCanon(h, db, root, tree);
      CommitOk(h, db, root, tree);
      var out := Hashed(h, root, true, db, tree);
      db := PutAll(db, out.puts);
      root := out.cached;
      d := out.ref.b;
    }

    method Prove(key: Bytes) returns (proof: seq<Bytes>)
      requires Valid()
      ensures proof == TrieProof.ProofOf(h, tree, KeyHex(key))
    {
      TrieProof.RootFits(tree, key);
      TrieProof.MetExact(h, db, root, KeyHex(key), tree);
      TryGetOk(h, db, root, KeyHex(key), tree, true);
      proof := TrieProof.Prove(h, db, root, key, tree);
    }
  }

  lemma {:induction false} RootIsCanon(h: Hasher, db: Db, n: Node, t: Tree)
    requires CanonOrNil(t) && Rep(h, db, n, t, true) && !n.NilNode?
    ensures Canon(t)
  {
  }

  /** The hash is that of a trie the database holds. */
  ghost predicate Openable(h: Hasher, hash: Digest, db: Db, t: Tree) {
    Canon(t) && hash == NodeHash(h, t) && Storable(h, t) && Entered(h, db, t) && ChildrenStored(h, db, t)
  }

  lemma {:induction false} OpenRoot(h: Hasher, hash: Digest, db: Db, t: Tree)
    requires Openable(h, hash, db, t)
    ensures Canon(t) && Resolve(db, hash) == Ok(Shallow(h, t, Some(hash)))
    ensures Rep(h, db, Shallow(h, t, Some(hash)), t, true)
    ensures Backed(h, db, Shallow(h, t, Some(hash)), t, false)
    ensures Closed(h, Shallow(h, t, Some(hash)), t, false) && Entries(h, db, [], Shallow(h, t, Some(hash)), t)
  {
    StoredHonest(h, db, t);
    DecodeNodeOf(h, t, Some(hash), []);
    assert NodeEnc(h, t) + [] == NodeEnc(h, t);
    ShallowRep(h, db, t, Some(hash), true, true);
    ShallowRep(h, db, t, Some(hash), false, true);
    ShallowClosed(h, t, Some(hash), false);
    BackedEntries(h, db, Shallow(h, t, Some(hash)), t);
  }

  /** Clean is the strict form of backed. */
  lemma {:induction false} CleanBacked(h: Hasher, db: Db, n: Node, t: Tree)
    requires Rep(h, db, n, t, true) && Backed(h, db, n, t, false) && Closed(h, n, t, false)
    ensures Entries(h, db, [], n, t) <==> Backed(h, db, n, t, true)
  {
    hide Rep, Backed, Closed, Entries;
    if Entries(h, db, [], n, t) { EntriesBack(h, db, n, t, true, false); }
    if Backed(h, db, n, t, true) { BackedEntries(h, db, n, t); }
  }

  lemma {:induction false} CommitOk(h: Hasher, db: Db, n: Node, t: Tree)
    requires Canon(t) && Rep(h, db, n, t, true) && Backed(h, db, n, t, false) && DbKeyed(h, db) &&
             Closed(h, n, t, false)
    ensures var out := Hashed(h, n, true, db, t);
            var db' := PutAll(db, out.puts);
            && out.ref == Rlp.Str(NodeHash(h, t)) && DbKeyed(h, db') && !out.cached.NilNode?
            && (FirstClash(db, out.puts).Some? ==> Collides(h, FirstClash(db, out.puts).value))
            && (FirstClash(db, out.puts).None? ==>
                  && Rep(h, db', out.cached, t, true) && Backed(h, db', out.cached, t, false)
                  && Closed(h, out.cached, t, false)
                  && (Entered(h, db', t) && Stored(h, db', t) <==> Entries(h, db, out.puts, n, t))
                  && (Entered(h, db', t) && Stored(h, db', t) <==> Entries(h, db', [], out.cached, t))
                  && (Entries(h, db, [], n, t) ==> Entries(h, db', [], out.cached, t)))
  {
    hide Rep, Backed, Stored, Canon, Hashed, Closed, Entries, Entered;
    HashedOk(h, db, n, true, t);
    var out := Hashed(h, n, true, db, t);
    var db' := PutAll(db, out.puts);
    PutAllKeeps(h, db, out.puts);
    HashedCloses(h, db, n, true, t);
    ClosedLess(h, out.cached, t, true);
    if FirstClash(db, out.puts).None? {
      RepGrows(h, db, db', out.cached, t, true);
      CommitExact(h, db, n, t);
      if Entries(h, db, [], n, t) { EntriesMore(h, db, out.puts, n, t); }
      CleanBacked(h, db', out.cached, t);
      if Entered(h, db', t) && Stored(h, db', t) { StoredBacks(h, db', out.cached, t, true); }
      if Entries(h, db', [], out.cached, t) { CachedRoot(h, db, db', n, t); }
    }
  }

  /** A hashed root is cached, so its entry and what it refers to are there. */
  lemma {:induction false} CachedRoot(h: Hasher, db: Db, db': Db, n: Node, t: Tree)
    requires Canon(t) && Rep(h, db, n, t, true) && Rep(h, db', Hashed(h, n, true, db, t).cached, t, true)
    requires Backed(h, db', Hashed(h, n, true, db, t).cached, t, true)
    ensures Entered(h, db', t) && Stored(h, db', t)
  {
  }

  /** The root hash of a non-empty trie is a function of its map alone. */
  lemma {:induction false} HashOfContents(h: Hasher, a: Tree, b: Tree, m: map<Bytes, Bytes>)
    requires Canon(a) && Canon(b) && Implements(a, m) && Implements(b, m)
    ensures NodeHash(h, a) == NodeHash(h, b) &&
            forall k: Bytes :: TrieProof.ProofOf(h, a, KeyHex(k)) == TrieProof.ProofOf(h, b, KeyHex(k))
  {
    hide Implements;
    ImplementsUnique(a, b, m);
  }

  /** A map within the limits makes a trie that can be stored. */
  lemma {:induction false} LimitedSized(t: Tree, m: map<Bytes, Bytes>)
    requires Implements(t, m)
    requires forall k :: k in m ==> 2 * |k| + 1 <= MAX_LEN && 0 < |m[k]| <= MAX_LEN
    ensures Sized(t)
  {
    forall key | Terminated(key) && Get(t, key).Some?
      ensures |key| <= MAX_LEN && 0 < |Get(t, key).value| <= MAX_LEN
    {
      var k: Bytes :| key == KeyHex(k);
      assert Get(t, KeyHex(k)) == Lookup(m, k);
    }
  }

  /** Commit then New: a clean trie of moderate entries comes back with the same answers. */
  method Reopen(trie: Trie) returns (r: Found<Trie>)
    requires trie.Valid() && trie.Clean() && !trie.root.NilNode?
    requires forall k :: k in trie.contents ==> 2 * |k| + 1 <= MAX_LEN && 0 < |trie.contents[k]| <= MAX_LEN
    modifies trie
    ensures var puts := Hashed(trie.h, old(trie.root), true, old(trie.db), old(trie.tree)).puts;
            FirstClash(old(trie.db), puts).None? && Canon(trie.tree) && NodeHash(trie.h, trie.tree) != EMPTY_HASH ==>
              r.Ok? && r.value.Valid() && r.value.Clean() && r.value.contents == old(trie.contents)
  {
    hide Implements, Rep, Backed, Hashed, Canon, Storable, Sized, PutAll, FirstClash;
    RootIsCanon(trie.h, trie.db, trie.root, trie.tree);
    LimitedSized(trie.tree, trie.contents);
    SizedStorable(trie.h, trie.tree);
    var d := trie.Commit();
    r := Trie.New(trie.h, d, trie.db, trie.tree, trie.contents);
  }
}
