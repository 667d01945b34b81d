/** merkle/merkle_tree.go and the two stores of merkle/file_hash_store.go: the compact tree, its
    appends, its roots and the proofs it reads back from the store. */
module MerkleTree {
  import opened Words
  import opened MerkleBits
  import opened MerkleSpec
  import opened MerkleFrontier

  // ---------------------------------------------------------------- subtree sizes and positions

  /** Listing sizes found by walking the digits of n from the lowest, id being the digit's weight. */
  function LowSizes(n: nat, id: nat): seq<nat>
    requires id > 0
    decreases n
  {
    if n == 0 then [] else LowSizes(n / 2, 2 * id) + (if n % 2 == 1 then [2 * id - 1] else [])
  }

  lemma {:induction false} LowSizesTop(k: nat, n: nat, id: nat)
    requires IsPower2(k) && n < k && id > 0
    ensures k * id > 0 && LowSizes(k + n, id) == [2 * (k * id) - 1] + LowSizes(n, id)
    decreases k
  {
    hide LowSizes;
    if k == 1 {
      LowSizesDigit(0, 1, id);
      LowSizesDigit(0, 0, id);
    } else {
      var h := k / 2;
      HalfWeight(h, id);
      LowSizesTop(h, n / 2, 2 * id);
      LowSizesStep(h, n / 2, n % 2, id, k * id);
      assert k + n == 2 * (h + n / 2) + n % 2;
    }
  }

  lemma {:induction false} HalfWeight(h: nat, id: nat)
    ensures h * (2 * id) == (2 * h) * id
  {
  }

  /** The last digit taken apart. */
  lemma {:induction false} LowSizesDigit(q: nat, r: nat, id: nat)
    requires r < 2 && id > 0
    ensures LowSizes(2 * q + r, id) == LowSizes(q, 2 * id) + (if r == 1 then [2 * id - 1] else [])
    ensures LowSizes(0, id) == []
  {
    assert (2 * q + r) / 2 == q && (2 * q + r) % 2 == r;
  }

  lemma {:induction false} LowSizesStep(h: nat, q: nat, r: nat, id: nat, top: nat)
    requires r < 2 && id > 0 && top > 0 && LowSizes(h + q, 2 * id) == [2 * top - 1] + LowSizes(q, 2 * id)
    ensures LowSizes(2 * (h + q) + r, id) == [2 * top - 1] + LowSizes(2 * q + r, id)
  {
    hide LowSizes;
    LowSizesDigit(h + q, r, id);
    LowSizesDigit(q, r, id);
    Assoc([2 * top - 1], LowSizes(q, 2 * id), if r == 1 then [2 * id - 1] else []);
  }

  /** Walking the digits upwards or peeling off the largest subtree gives one list. */
  lemma {:induction false} LowSizesIsSizes(n: nat)
    ensures LowSizes(n, 1) == Sizes(n)
  {
    hide LowSizes, Sizes, First, IsPower2;
    if n == 0 {
      LowSizesDigit(0, 0, 1);
      NoPositions(0);
    } else {
      var k := First(n);
      FirstIsPower2(n);
      LowSizesIsSizes(n - k);
      LowSizesTop(k, n - k, 1);
      PositionsStep(n, 0);
      assert k + (n - k) == n && k * 1 == k;
    }
  }

  lemma {:induction false} PositionsBound(n: nat, base: nat)
    ensures forall i :: 0 <= i < |Positions(n, base)| ==> Positions(n, base)[i] <= base + 2 * n
    decreases n
  {
    if n > 0 { PositionsBound(n - First(n), base + 2 * First(n) - 1); }
  }

  method GetSubTreeSize(n: Uint32) returns (sizes: array<Uint32>)
    requires n < TWO_31
    ensures fresh(sizes) && sizes[..] == Sizes(n)
  {
    var nhashes := CountBits(n);
    LowSizesIsSizes(n);
    SizesLength(n);
    sizes := new Uint32[nhashes](_ => 0);
    var x: Uint32, id: Uint32, i: int := n, 1, nhashes as int - 1;
    while x != 0
      invariant -1 <= i < nhashes && id > 0 && x * id <= n
      invariant |LowSizes(x, id)| == i + 1
      invariant LowSizes(x, id) + sizes[i + 1..] == Sizes(n)
      decreases x
    {
      DigitStep(x, id, n);
      var head := LowSizes(x / 2, 2 * id);
      id := 2 * id;
      if x % 2 == 1 {
        ghost var before := sizes[i + 1..];
        assert head + ([id - 1] + before) == (head + [id - 1]) + before;
        sizes[i] := id - 1;
        assert sizes[i..] == [id - 1] + before;
        i := i - 1;
      } else {
        assert head + [] == head;
      }
      x := x / 2;
    }
    assert sizes[0..] == sizes[..];
  }

  lemma {:induction false} DigitStep(x: nat, id: nat, n: nat)
    requires x > 0 && id > 0 && x * id <= n
    ensures id <= n && x / 2 * (2 * id) <= n
  {
    assert x == 2 * (x / 2) + x % 2;
    assert x / 2 * (2 * id) == 2 * (x / 2) * id;
    assert x * id == 2 * (x / 2) * id + x % 2 * id;
    assert x * id >= id by { assert (x - 1) * id >= 0; }
  }

  method GetSubTreePos(n: Uint32) returns (pos: array<Uint32>)
    requires n < TWO_31
    ensures fresh(pos) && pos[..] == Positions(n, 0)
  {
    pos := GetSubTreeSize(n);
    ghost var p, s := Positions(n, 0), Sizes(n);
    PositionsAt(n, 0);
    PositionsBound(n, 0);
    var i := 1;
    while i < pos.Length
      invariant 1 <= i
      invariant forall j :: 0 <= j < i && j < pos.Length ==> pos[j] == p[j]
      invariant forall j :: i <= j < pos.Length ==> pos[j] == s[j]
    {
      pos[i] := pos[i] + pos[i - 1];
      i := i + 1;
    }
  }

  /** The number of hashes the store holds for a tree of the given size. */
  method GetStoredHashNum(treeSize: Uint32) returns (sum: nat)
    requires treeSize < TWO_31
    ensures sum == 2 * treeSize - CountBit(treeSize)
    ensures forall h, d :: |d| == treeSize ==> |Stored(h, d)| == sum
  {
    var sizes := GetSubTreeSize(treeSize);
    sum := 0;
    for i := 0 to sizes.Length
      invariant sum + Sum(Sizes(treeSize)[i..]) == Sum(Sizes(treeSize))
    {
      assert Sizes(treeSize)[i..][1..] == Sizes(treeSize)[i + 1..];
      sum := sum + sizes[i];
    }
    forall h, d: seq<Digest> | |d| == treeSize ensures |Stored(h, d)| == sum { StoredLength(h, d); }
    StoredLength(TreeHasher(_ => EMPTY_HASH), seq(treeSize, _ => EMPTY_HASH));
  }

  method HashFold(h: TreeHasher, hashes: seq<Digest>) returns (accum: Digest)
    requires |hashes| > 0
    ensures accum == Fold(h, hashes)
  {
    var i := |hashes| - 1;
    accum := hashes[i];
    assert hashes[i..] == [hashes[i]];
    while i > 0
      invariant 0 <= i < |hashes| && accum == Fold(h, hashes[i..])
    {
      i := i - 1;
      assert hashes[i..][1..] == hashes[i + 1..];
      accum := h.HashChildren(hashes[i], accum);
    }
    assert hashes[0..] == hashes;
  }

  lemma {:induction false} SplitByBits(n: nat)
    requires n >= 2
    ensures BitLen(n - 1) >= 1 && Pow2(BitLen(n - 1) - 1) == Split(n)
  {
    assert BitLen(1) == 1;
    if n > 2 {
      SplitByBits((n + 1) / 2);
      assert (n + 1) / 2 - 1 == (n - 1) / 2;
    }
  }

  /** The source's 1 << (highBit(n-1) - 1). A single leaf has highBit(0) - 1, which wraps to a
      shift by more than the width and leaves zero. */
  method SplitWidth(n: Uint32) returns (k: Uint32)
    requires n >= 1
    ensures k == if n == 1 then 0 else Split(n)
  {
    var hb := HighestBit(n - 1);
    if hb == 0 { return 0; }
    SplitByBits(n);
    k := Pow2(hb - 1);
  }

  // ---------------------------------------------------------------- state bytes

  function PutUint32(n: Uint32): (b: Bytes)
    ensures |b| == 4
  {
    [n / 0x100_0000, n / 0x1_0000 % 0x100, n / 0x100 % 0x100, n % 0x100]
  }

  function GetUint32(b: Bytes): Uint32
    requires |b| >= 4
  {
    b[0] as int * 0x100_0000 + b[1] as int * 0x1_0000 + b[2] as int * 0x100 + b[3] as int
  }

  function Concat(hashes: seq<Digest>): (b: Bytes)
    ensures |b| == UINT256_SIZE * |hashes|
  {
    if |hashes| == 0 then [] else hashes[0] + Concat(hashes[1..])
  }

  /** The first n 32-byte blocks of a byte string. */
  function Blocks(b: Bytes, n: nat): (r: seq<Digest>)
    requires |b| >= UINT256_SIZE * n
    ensures |r| == n
  {
    if n == 0 then [] else [b[..UINT256_SIZE]] + Blocks(b[UINT256_SIZE..], n - 1)
  }

  lemma {:induction false} BlocksOfConcat(hashes: seq<Digest>, rest: Bytes)
    ensures Blocks(Concat(hashes) + rest, |hashes|) == hashes
  {
    if |hashes| > 0 {
      BlocksOfConcat(hashes[1..], rest);
      var b := Concat(hashes) + rest;
      assert b[..UINT256_SIZE] == hashes[0];
      assert b[UINT256_SIZE..] == Concat(hashes[1..]) + rest;
    }
  }

  lemma {:induction false} Uint32RoundTrip(n: Uint32, rest: Bytes)
    ensures GetUint32(PutUint32(n) + rest) == n
  {
    var h, m := n / 0x1_0000, n / 0x100;
    assert n == m * 0x100 + n % 0x100;
    assert m == h * 0x100 + m % 0x100;
    assert h == n / 0x100_0000 * 0x100 + h % 0x100;
  }

  /** The bytes of a tree state. */
  function StateBytes(size: Uint32, hashes: seq<Digest>): Bytes {
    PutUint32(size) + Concat(hashes)
  }

  /** What UnMarshal reads back: nothing when the hashes are cut short. */
  function ParseState(buf: Bytes): Option<(Uint32, seq<Digest>)>
    requires |buf| >= 4
  {
    var size := GetUint32(buf);
    var n := CountBit(size);
    if |buf| < 4 + n * UINT256_SIZE then None else Some((size, Blocks(buf[4..], n)))
  }

  /** The state by positions: the size in four bytes, the highest first, and then the hashes. */
  lemma {:induction false} StateLayout(size: Uint32, hashes: seq<Digest>, i: nat)
    ensures var b := StateBytes(size, hashes);
      && |b| == 4 + 32 * |hashes|
      && b[0] as int * 0x100_0000 + b[1] as int * 0x1_0000 + b[2] as int * 0x100 + b[3] as int == size
      && (i < |hashes| ==> b[4 + 32 * i..36 + 32 * i] == hashes[i])
  {
    Uint32RoundTrip(size, Concat(hashes));
    var b := StateBytes(size, hashes);
    assert b[..4] == PutUint32(size) && b[4..] == Concat(hashes);
    if i < |hashes| {
      ConcatAt(hashes, i);
      TailSlice(b, 4, 32 * i, 32 * i + 32);
    }
  }

  lemma {:induction false} ConcatAt(hashes: seq<Digest>, i: nat)
    requires i < |hashes|
    ensures Concat(hashes)[32 * i..32 * i + 32] == hashes[i]
  {
    var b := Concat(hashes);
    if i == 0 {
      assert b[..32] == hashes[0];
    } else {
      ConcatAt(hashes[1..], i - 1);
      assert b[32..] == Concat(hashes[1..]);
      TailSlice(b, 32, 32 * (i - 1), 32 * (i - 1) + 32);
    }
  }

  /** Marshal then UnMarshal, with anything after the state ignored, is the identity. */
  lemma {:induction false} StateRoundTrip(size: Uint32, hashes: seq<Digest>, rest: Bytes)
    requires |hashes| == CountBit(size)
    ensures ParseState(StateBytes(size, hashes) + rest) == Some((size, hashes))
  {
    hide PutUint32, GetUint32, Concat, Blocks, CountBit;
    var buf := StateBytes(size, hashes) + rest;
    assert buf == PutUint32(size) + (Concat(hashes) + rest);
    Uint32RoundTrip(size, Concat(hashes) + rest);
    BlocksOfConcat(hashes, rest);
    assert buf[4..] == Concat(hashes) + rest;
  }

  method ReadBlocks(buf: Bytes, n: nat) returns (read: seq<Digest>)
    requires |buf| >= 4 + n * UINT256_SIZE
    ensures read == Blocks(buf[4..], n)
  {
    read := [];
    for i := 0 to n
      invariant |read| == i
      invariant read + Blocks(buf[4 + i * UINT256_SIZE..], n - i) == Blocks(buf[4..], n)
    {
      var block := buf[4 + i * UINT256_SIZE..4 + (i + 1) * UINT256_SIZE];
      ghost var at := buf[4 + i * UINT256_SIZE..];
      assert at[..UINT256_SIZE] == block;
      assert at[UINT256_SIZE..] == buf[4 + (i + 1) * UINT256_SIZE..];
      Assoc(read, [block], Blocks(at[UINT256_SIZE..], n - i - 1));
      read := read + [block];
    }
    assert read + [] == read;
  }

  // ---------------------------------------------------------------- the store and the tree

  datatype StoreKind = InMemory | InFile

  /** What a store answers at a position: past its end the in-memory slice panics, and the file
      gives the empty hash with an error that the tree discards. */
  function Lookup(kind: StoreKind, hashes: seq<Digest>, pos: Uint32): Option<Digest> {
    if pos < |hashes| then Some(hashes[pos]) else if kind == InFile then Some(EMPTY_HASH) else None
  }

  class HashStore {
    const kind: StoreKind
    var hashes: seq<Digest>

    constructor (where: StoreKind)
      ensures kind == where && hashes == []
    {
      kind, hashes := where, [];
    }

    method Append(more: seq<Digest>)
      modifies this
      ensures hashes == old(hashes) + more
    {
      hashes := hashes + more;
    }

    method GetHash(pos: Uint32) returns (hash: Option<Digest>)
      ensures hash == Lookup(kind, hashes, pos)
    {
      if pos < |hashes| { return Some(hashes[pos]); }
      match kind {
        case InMemory => return None;
        case InFile => return Some(EMPTY_HASH);
      }
    }
  }

  /** A proof request is refused with nil, answered, or runs into an index panic. */
  datatype ProofResult = Nil | Hashes(hashes: seq<Digest>) | Panics

  datatype Error = WrongParameters | NotAvailableYet | NoHashStore
  datatype Result<+T> = Ok(value: T) | Err(error: Error)

  class CompactMerkleTree {
    const hasher: TreeHasher
    var mintreeH: nat
    var hashes: seq<Digest>
    var hashStore: HashStore?
    var rootHash: Digest
    var treeSize: Uint32

    /** The leaf hashes appended so far. */
    ghost var leaves: seq<Digest>

    ghost function Repr(): set<object>
      reads this
    {
      {this} + (if hashStore != null then {hashStore} else {})
    }

    /** The fields are those of RFC 6962's tree over the leaves. */
    ghost predicate Valid()
      reads this, hashStore
    {
      && treeSize == |leaves| < TWO_31
      && hashes == Frontier(hasher, leaves)
      && mintreeH == LowBit(treeSize)
      && (rootHash == EMPTY_HASH || rootHash == Mth(hasher, leaves))
      && (hashStore != null ==> hashStore.hashes == Stored(hasher, leaves))
    }

    /** NewTree: the frontier must have one hash per one digit of the size, or the source panics.
        A caller that hands over the frontier (and the store) of some leaves gets their tree. */
    constructor (h: TreeHasher, size: Uint32, frontier: seq<Digest>, store: HashStore?, ghost d: seq<Digest>)
      requires |frontier| == CountBit(size)
      ensures hasher == h && hashStore == store && treeSize == size && hashes == frontier && leaves == d
      ensures mintreeH == LowBit(size) && rootHash == EMPTY_HASH
      ensures size == |d| < TWO_31 && frontier == Frontier(h, d) && (store != null ==> store.hashes == Stored(h, d)) ==>
                Valid()
    {
      var low := LowestBit(size);
      hasher, mintreeH, hashes, hashStore := h, low, frontier, store;
      rootHash, treeSize, leaves := EMPTY_HASH, size, d;
    }

    method Marshal() returns (buf: Bytes)
      requires Valid()
      ensures buf == StateBytes(treeSize, hashes)
      ensures ParseState(buf) == Some((treeSize, hashes))
    {
      buf := PutUint32(treeSize);
      for i := 0 to |hashes|
        invariant buf + Concat(hashes[i..]) == StateBytes(treeSize, hashes)
      {
        assert hashes[i..][1..] == hashes[i + 1..];
        Assoc(buf, hashes[i], Concat(hashes[i + 1..]));
        buf := buf + hashes[i];
      }
      assert buf + [] == buf;
      FrontierLength(hasher, leaves);
      StateRoundTrip(treeSize, hashes, []);
    }

    /** A buffer shorter than the size field panics in the source. */
    method UnMarshal(buf: Bytes, ghost d: seq<Digest>) returns (ok: bool)
      requires |buf| >= 4
      modifies this
      ensures ok == ParseState(buf).Some? && hashStore == old(hashStore)
      ensures !ok ==> unchanged(this)
      ensures ok ==>
                && (treeSize, hashes) == ParseState(buf).value && leaves == d
                && mintreeH == LowBit(treeSize) && rootHash == EMPTY_HASH
      ensures ok && treeSize == |d| < TWO_31 && hashes == Frontier(hasher, d) &&
              (hashStore != null ==> hashStore.hashes == Stored(hasher, d)) ==>
                Valid()
    {
      var size := GetUint32(buf);
      var n := CountBits(size);
      if |buf| < 4 + n * UINT256_SIZE { return false; }
      var read := ReadBlocks(buf, n);
      var low := LowestBit(size);
      treeSize, hashes, mintreeH, rootHash, leaves := size, read, low, EMPTY_HASH, d;
      return true;
    }

    method Root() returns (root: Digest)
      requires Valid()
      modifies this`rootHash
      ensures Valid() && root == Mth(hasher, leaves)
    {
      if rootHash == EMPTY_HASH {
        if |hashes| != 0 {
          FrontierLength(hasher, leaves);
          FoldFrontier(hasher, leaves);
          rootHash := HashFold(hasher, hashes);
        } else {
          FoldsOnlyWhenNonempty();
          rootHash := hasher.HashEmpty();
        }
      }
      return rootHash;
    }

    lemma {:induction false} FoldsOnlyWhenNonempty()
      requires Valid() && |hashes| == 0
      ensures |leaves| == 0
    {
      if |leaves| > 0 { FoldFrontier(hasher, leaves); }
    }

    method GetRootWithNewLeaf(newLeaf: Digest) returns (root: Digest)
      requires Valid()
      ensures root == Mth(hasher, leaves + [newLeaf])
    {
      FoldFrontierAndLeaf(hasher, leaves, newLeaf);
      root := HashFold(hasher, hashes + [newLeaf]);
    }

    /** The copy of cloneMem: same state, no store. */
    method CloneMem() returns (temp: CompactMerkleTree)
      requires Valid()
      ensures fresh(temp) && temp.Valid() && temp.hashStore == null
      ensures temp.hasher == hasher && temp.leaves == leaves
    {
      FrontierLength(hasher, leaves);
      temp := new CompactMerkleTree(hasher, treeSize, hashes, null, leaves);
      temp.rootHash := rootHash;
    }

    method GetRootWithNewLeaves(newLeaves: seq<Digest>) returns (root: Digest)
      requires Valid() && treeSize + |newLeaves| < TWO_31
      ensures root == Mth(hasher, leaves + newLeaves)
    {
      var tree := CloneMem();
      for i := 0 to |newLeaves|
        invariant tree.Valid() && tree.hasher == hasher && tree.hashStore == null && fresh(tree)
        invariant tree.leaves == leaves + newLeaves[..i]
      {
        assert newLeaves[..i + 1] == newLeaves[..i] + [newLeaves[i]];
        Assoc(leaves, newLeaves[..i], [newLeaves[i]]);
        var _ := tree.AppendHash(newLeaves[i]);
      }
      assert newLeaves[..|newLeaves|] == newLeaves;
      root := tree.Root();
    }

    /** Append: hash the data as a leaf first. */
    method Append(data: Bytes) returns (auditPath: seq<Digest>)
      requires Valid() && treeSize < TWO_31 - 1
      modifies Repr()
      ensures Valid() && hashStore == old(hashStore) && leaves == old(leaves) + [hasher.HashLeaf(data)]
      ensures auditPath == Path(hasher, |old(leaves)|, leaves)
    {
      auditPath := AppendHash(hasher.HashLeaf(data));
    }

    method AppendHash(leaf: Digest) returns (auditPath: seq<Digest>)
      requires Valid() && treeSize < TWO_31 - 1
      modifies Repr()
      ensures Valid() && hashStore == old(hashStore) && leaves == old(leaves) + [leaf]
      ensures auditPath == Path(hasher, |old(leaves)|, leaves)
    {
      hide Frontier, Stored, Carry, LowBit, CountBit, Path, Mth;
      auditPath := Reverse(hashes);
      ReversedFrontierIsPath(hasher, leaves, leaf);
      FrontierLength(hasher, leaves);
      AppendLeaf(hasher, leaves, leaf);
      var size, up, storehashes, height := MergeUp(hasher, hashes, treeSize, leaf);
      mintreeH := height;
      if hashStore != null {
        hashStore.Append(storehashes);
      }
      treeSize := treeSize + 1;
      hashes := hashes[..size] + [up];
      rootHash := EMPTY_HASH;
      leaves := leaves + [leaf];
    }

    /** Move the positions up by base and read them, in 32-bit arithmetic. */
    method ReadMoved(pos: array<Uint32>, base: Uint32) returns (r: Option<seq<Digest>>)
      requires hashStore != null
      modifies pos
      ensures r.Some? <==>
              forall p :: 0 <= p < pos.Length ==>
                Lookup(hashStore.kind, hashStore.hashes, Moved(old(pos[p]), base)).Some?
      ensures r.Some? ==> |r.value| == pos.Length
      ensures forall p :: r.Some? && 0 <= p < pos.Length ==>
                Some(r.value[p]) == Lookup(hashStore.kind, hashStore.hashes, Moved(old(pos[p]), base))
    {
      var subhashes: seq<Digest> := [];
      for p := 0 to pos.Length
        invariant |subhashes| == p
        invariant forall i :: 0 <= i < p ==>
                    Some(subhashes[i]) == Lookup(hashStore.kind, hashStore.hashes, Moved(old(pos[i]), base))
        invariant forall i :: p <= i < pos.Length ==> pos[i] == old(pos[i])
      {
        pos[p] := (pos[p] + base) % TWO_32;
        var hash := hashStore.GetHash((pos[p] + TWO_32 - 1) % TWO_32);
        if hash == None { return None; }
        subhashes := subhashes + [hash.value];
      }
      return Some(subhashes);
    }

    /** Fold the roots of the perfect subtrees of d, whose listing starts at base. With the base one
        below zero the single position of a one-leaf tree is read one below zero too. */
    method ReadRoot(n: Uint32, base: Uint32, ghost d: seq<Digest>) returns (root: Option<Digest>)
      requires hashStore != null && 0 < n == |d| < TWO_31 && |hashStore.hashes| < TWO_32
      requires Holds(hasher, hashStore.hashes, base, d) || (n == 1 && base == TWO_32 - 1)
      ensures root == if Holds(hasher, hashStore.hashes, base, d) then Some(Mth(hasher, d))
                      else Lookup(hashStore.kind, hashStore.hashes, TWO_32 - 1)
    {
      hide Holds, Positions, Frontier, Mth;
      var pos := GetSubTreePos(n);
      assert pos.Length == |pos[..]|;
      ghost var at := pos[..];
      if Holds(hasher, hashStore.hashes, base, d) {
        FrontierMoved(hasher, hashStore.kind, hashStore.hashes, base, d);
        FoldFrontier(hasher, d);
      } else {
        OnePosition();
      }
      var read := ReadMoved(pos, base);
      if read == None { return None; }
      if Holds(hasher, hashStore.hashes, base, d) {
        assert read.value == Frontier(hasher, d);
      }
      var folded := HashFold(hasher, read.value);
      return Some(folded);
    }

    /** The root of the first n leaves, read from the store. */
    method MerkleRoot(n: Uint32) returns (root: Digest)
      requires Valid() && hashStore != null && 0 < n <= treeSize
      ensures root == Mth(hasher, leaves[..n])
    {
      StoreHoldsPrefix(n);
      var read := ReadRoot(n, 0, leaves[..n]);
      root := read.value;
    }

    lemma {:induction false} StoreHoldsPrefix(n: nat)
      requires Valid() && hashStore != null && n <= treeSize
      ensures Holds(hasher, hashStore.hashes, 0, leaves[..n]) && |hashStore.hashes| < TWO_32
    {
      StoredPrefix(hasher, leaves, n);
      StoredLength(hasher, leaves);
      hide Stored, Mth, Frontier, LowBit;
    }

    method InclusionProof(m: Uint32, n: Uint32) returns (r: Result<seq<Digest>>)
      requires Valid()
      ensures r == if m >= n then Err(WrongParameters)
                   else if treeSize < n then Err(NotAvailableYet)
                   else if hashStore == null then Err(NoHashStore)
                   else Ok(Path(hasher, m, leaves[..n]))
    {
      if m >= n { return Err(WrongParameters); }
      if treeSize < n { return Err(NotAvailableYet); }
      if hashStore == null { return Err(NoHashStore); }
      StoreHoldsPrefix(n);
      var path := WalkDown(m, n, leaves[..n]);
      return Ok(path);
    }

    /** The descent of InclusionProof from the root of d to leaf m0. */
    method WalkDown(m0: Uint32, n0: Uint32, ghost d: seq<Digest>) returns (reverse: seq<Digest>)
      requires hashStore != null && m0 < n0 == |d| < TWO_31 && |hashStore.hashes| < TWO_32
      requires Holds(hasher, hashStore.hashes, 0, d)
      ensures reverse == Path(hasher, m0, d)
    {
      hide Holds, Mth, Split, Reversed, Path;
      var m: Uint32, n: Uint32, offset: Uint32 := m0, n0, 0;
      var hashes: seq<Digest> := [];
      ghost var cur := d;
      NilReversed(Path(hasher, m0, d));
      while n != 1
        invariant m < n == |cur| <= n0
        invariant Holds(hasher, hashStore.hashes, offset, cur)
        invariant Path(hasher, m, cur) + Reversed(hashes) == Path(hasher, m0, d)
        decreases n
      {
        var k := SplitWidth(n);
        Descend(hasher, hashStore.hashes, offset, cur);
        if m < k {
          var right := ReadRoot(n - k, offset + 2 * k - 1, cur[k..]);
          PathLeft(hasher, m, cur, hashes);
          hashes := hashes + [right.value];
          cur := cur[..k];
          n := k;
        } else {
          offset := offset + 2 * k - 1;
          var left := hashStore.GetHash(offset - 1);
          PathRight(hasher, m, cur, hashes);
          hashes := hashes + [left.value];
          cur := cur[k..];
          m := m - k;
          n := n - k;
        }
      }
      PathEnd(hasher, cur, hashes);
      reverse := Reverse(hashes);
    }

    /** An empty old tree sends the descent past leaf 0 with a split width of zero, and the store is
        read at position 2^32 - 1. */
    method ConsistencyProof(m: Uint32, n: Uint32) returns (r: ProofResult)
      requires Valid()
      ensures r == if m > n || treeSize < n || hashStore == null then Nil
                   else if 0 < m then Hashes(Proof(hasher, m, leaves[..n]))
                   else if n == 0 then Hashes([])
                   else if hashStore.kind == InMemory then Panics
                   else Hashes([EMPTY_HASH] + Path(hasher, 0, leaves[..n]))
    {
      if m > n || treeSize < n || hashStore == null { return Nil; }
      StoreHoldsPrefix(n);
      r := SubProofDown(m, n, leaves[..n]);
    }

    /** The descent of subproof; the panic on a final subtree that is not perfect is unreachable. */
    method SubProofDown(m0: Uint32, n0: Uint32, ghost d: seq<Digest>) returns (r: ProofResult)
      requires hashStore != null && m0 <= n0 == |d| < TWO_31 && |hashStore.hashes| < TWO_32
      requires Holds(hasher, hashStore.hashes, 0, d)
      ensures r == if m0 == 0 < n0 && hashStore.kind == InMemory then Panics
                   else Hashes(Answer(hasher, m0, d, true))
    {
      hide Holds, Mth, Split, Reversed, IsPower2, Answer;
      var m: Uint32, n: Uint32, offset: Uint32, b := m0, n0, 0, true;
      var hashes: seq<Digest> := [];
      ghost var cur := d;
      NilReversed(Answer(hasher, m0, d, true));
      while m < n
        invariant m <= n == |cur| <= n0 && (m == 0 <==> m0 == 0)
        invariant m == 0 ==> b && offset == 0 && (n == 0 < n0 ==> hashStore.kind == InFile)
        invariant n > 0 ==> Holds(hasher, hashStore.hashes, offset, cur)
        invariant Answer(hasher, m, cur, b) + Reversed(hashes) == Answer(hasher, m0, d, true)
        invariant !b && m == n ==> IsPower2(n)
        decreases n
      {
        var k := SplitWidth(n);
        if n >= 2 {
          Descend(hasher, hashStore.hashes, offset, cur);
        } else {
          PastEnd(hasher, hashStore.hashes, TWO_32 - 1, cur);
          assert cur[0..] == cur;
        }
        if m <= k {
          var base: Uint32 := (offset + 2 * k + TWO_32 - 1) % TWO_32;
          assert base == if n == 1 then TWO_32 - 1 else offset + 2 * k - 1;
          var right := ReadRoot(n - k, base, cur[k..]);
          if right == None { return Panics; }
          AnswerLeft(hasher, m, cur, b, hashes);
          hashes := hashes + [right.value];
          cur := cur[..k];
          n := k;
        } else {
          offset := offset + 2 * k - 1;
          var left := hashStore.GetHash(offset - 1);
          AnswerRight(hasher, m, cur, b, hashes);
          hashes := hashes + [left.value];
          cur := cur[k..];
          m := m - k;
          n := n - k;
          b := false;
        }
      }
      AnswerEnd(hasher, m, cur, b, hashes);
      if !b {
        LastIsRoot(hasher, hashStore.hashes, offset, cur);
        var pos := GetSubTreePos(n);
        assert pos.Length == |pos[..]| == 1;
        var root := hashStore.GetHash(pos[0] + offset - 1);
        hashes := hashes + [root.value];
      }
      var reverse := Reverse(hashes);
      return Hashes(reverse);
    }
  }

  // ---------------------------------------------------------------- the descents

  /** The position of a listing moved up by base, counted from zero, in 32-bit arithmetic. */
  function Moved(pos: Uint32, base: Uint32): Uint32 {
    ((pos + base) % TWO_32 + TWO_32 - 1) % TWO_32
  }

  lemma {:induction false} FrontierMoved(h: TreeHasher, kind: StoreKind, store: seq<Digest>, base: Uint32,
                                         d: seq<Digest>)
    requires Holds(h, store, base, d) && |store| < TWO_32 && |d| < TWO_31
    ensures |Positions(|d|, 0)| == |Frontier(h, d)|
    ensures forall i :: 0 <= i < |Positions(|d|, 0)| ==>
              Positions(|d|, 0)[i] < TWO_32 &&
              Lookup(kind, store, Moved(Positions(|d|, 0)[i], base)) == Some(Frontier(h, d)[i])
  {
    hide Holds, Positions, Frontier;
    ReadFrontier(h, store, base, d);
    PositionsShift(|d|, base);
  }

  lemma {:induction false} PastEnd(h: TreeHasher, store: seq<Digest>, base: nat, d: seq<Digest>)
    requires |store| <= base && |d| == 1
    ensures !Holds(h, store, base, d)
  {
    StoredLength(h, d);
    assert CountBit(1) == 1;
  }

  lemma {:induction false} OnePosition()
    ensures Positions(1, 0) == [1] && Moved(1, TWO_32 - 1) == TWO_32 - 1
  {
    assert Positions(0, 1) == [];
  }

  /** What subproof answers, given that the store hands over a hash even past its end: SUBPROOF of
      RFC 6962, and for an empty old tree the empty hash before the audit path of leaf 0. */
  function Answer(h: TreeHasher, m: nat, d: seq<Digest>, b: bool): seq<Digest>
    requires m <= |d|
  {
    if 0 < m then SubProof(h, m, d, b) else if d == [] then [] else [EMPTY_HASH] + Path(h, 0, d)
  }

  lemma {:induction false} AnswerLeft(h: TreeHasher, m: nat, d: seq<Digest>, b: bool, hashes: seq<Digest>)
    requires m < |d| && (|d| == 1 || m <= Split(|d|))
    ensures var k := if |d| == 1 then 0 else Split(|d|);
            var right := if |d| == 1 then EMPTY_HASH else Mth(h, d[k..]);
            Answer(h, m, d[..k], b) + Reversed(hashes + [right]) == Answer(h, m, d, b) + Reversed(hashes)
  {
    if |d| == 1 {
      ReversedPush([], hashes, EMPTY_HASH);
      assert [] + [EMPTY_HASH] == [EMPTY_HASH] + [];
    } else if m == 0 {
      var k := Split(|d|);
      PathLeft(h, 0, d, hashes);
      Assoc([EMPTY_HASH], Path(h, 0, d[..k]), Reversed(hashes + [Mth(h, d[k..])]));
      Assoc([EMPTY_HASH], Path(h, 0, d), Reversed(hashes));
    } else {
      SubProofLeft(h, m, d, b, hashes);
    }
  }

  lemma {:induction false} AnswerRight(h: TreeHasher, m: nat, d: seq<Digest>, b: bool, hashes: seq<Digest>)
    requires |d| >= 2 && Split(|d|) < m < |d|
    ensures var k := Split(|d|);
            Answer(h, m - k, d[k..], false) + Reversed(hashes + [Mth(h, d[..k])]) ==
            Answer(h, m, d, b) + Reversed(hashes)
  {
    SubProofRight(h, m, d, b, hashes);
  }

  lemma {:induction false} AnswerEnd(h: TreeHasher, m: nat, d: seq<Digest>, b: bool, hashes: seq<Digest>)
    requires m == |d| && (m == 0 ==> b)
    ensures Answer(h, m, d, b) + Reversed(hashes) == Reversed(if b then hashes else hashes + [Mth(h, d)])
  {
    if m > 0 { SubProofEnd(h, m, d, b, hashes); }
  }

  lemma {:induction false} NilReversed(p: seq<Digest>)
    ensures p + Reversed([]) == p
  {
  }

  lemma {:induction false} ReversedPush(p: seq<Digest>, hashes: seq<Digest>, x: Digest)
    ensures (p + [x]) + Reversed(hashes) == p + Reversed(hashes + [x])
  {
    assert Reversed(hashes + [x]) == [x] + Reversed(hashes);
  }

  lemma {:induction false} PathLeft(h: TreeHasher, m: nat, d: seq<Digest>, hashes: seq<Digest>)
    requires |d| >= 2 && m < Split(|d|)
    ensures var k := Split(|d|);
            Path(h, m, d[..k]) + Reversed(hashes + [Mth(h, d[k..])]) == Path(h, m, d) + Reversed(hashes)
  {
    ReversedPush(Path(h, m, d[..Split(|d|)]), hashes, Mth(h, d[Split(|d|)..]));
  }

  lemma {:induction false} PathRight(h: TreeHasher, m: nat, d: seq<Digest>, hashes: seq<Digest>)
    requires |d| >= 2 && Split(|d|) <= m < |d|
    ensures var k := Split(|d|);
            Path(h, m - k, d[k..]) + Reversed(hashes + [Mth(h, d[..k])]) == Path(h, m, d) + Reversed(hashes)
  {
    ReversedPush(Path(h, m - Split(|d|), d[Split(|d|)..]), hashes, Mth(h, d[..Split(|d|)]));
  }

  lemma {:induction false} PathEnd(h: TreeHasher, d: seq<Digest>, hashes: seq<Digest>)
    requires |d| == 1
    ensures Path(h, 0, d) + Reversed(hashes) == Reversed(hashes)
  {
  }

  lemma {:induction false} SubProofLeft(h: TreeHasher, m: nat, d: seq<Digest>, b: bool, hashes: seq<Digest>)
    requires |d| >= 2 && 0 < m <= Split(|d|)
    ensures var k := Split(|d|);
            SubProof(h, m, d[..k], b) + Reversed(hashes + [Mth(h, d[k..])]) == SubProof(h, m, d, b) + Reversed(hashes)
  {
    ReversedPush(SubProof(h, m, d[..Split(|d|)], b), hashes, Mth(h, d[Split(|d|)..]));
  }

  lemma {:induction false} SubProofRight(h: TreeHasher, m: nat, d: seq<Digest>, b: bool, hashes: seq<Digest>)
    requires |d| >= 2 && Split(|d|) < m < |d|
    ensures var k := Split(|d|);
            SubProof(h, m - k, d[k..], false) + Reversed(hashes + [Mth(h, d[..k])]) ==
            SubProof(h, m, d, b) + Reversed(hashes)
  {
    ReversedPush(SubProof(h, m - Split(|d|), d[Split(|d|)..], false), hashes, Mth(h, d[..Split(|d|)]));
  }

  lemma {:induction false} SubProofEnd(h: TreeHasher, m: nat, d: seq<Digest>, b: bool, hashes: seq<Digest>)
    requires 0 < m == |d|
    ensures SubProof(h, m, d, b) + Reversed(hashes) ==
            Reversed(if b then hashes else hashes + [Mth(h, d)])
  {
    if !b { assert Reversed(hashes + [Mth(h, d)]) == [Mth(h, d)] + Reversed(hashes); }
  }

  lemma {:induction false} PositionsShift(n: nat, base: nat)
    ensures |Positions(n, base)| == |Positions(n, 0)|
    ensures forall i :: 0 <= i < |Positions(n, 0)| ==> Positions(n, base)[i] == base + Positions(n, 0)[i]
    decreases n
  {
    hide First;
    if n > 0 {
      var k := First(n);
      PositionsShift(n - k, base + 2 * k - 1);
      PositionsShift(n - k, 2 * k - 1);
    }
  }

  /** One step down: where the left root and the right listing sit in the store. */
  lemma {:induction false} Descend(h: TreeHasher, store: seq<Digest>, offset: nat, d: seq<Digest>)
    requires |d| >= 2 && Holds(h, store, offset, d)
    ensures var k := Split(|d|);
            && IsPower2(k) && k > 0
            && Holds(h, store, offset, d[..k]) && Holds(h, store, offset + 2 * k - 1, d[k..])
            && offset + 2 * k - 1 <= |store| && store[offset + 2 * k - 2] == Mth(h, d[..k])
  {
    hide Stored, PostOrder, Holds, IsPower2, Mth, Split;
    StoredSplit(h, d);
    HoldsParts(h, store, offset, d, Split(|d|));
  }

  /** The root of a perfect tree is the last entry of its listing. */
  lemma {:induction false} LastIsRoot(h: TreeHasher, store: seq<Digest>, offset: nat, d: seq<Digest>)
    requires IsPower2(|d|) && Holds(h, store, offset, d)
    ensures Positions(|d|, 0) == [2 * |d| - 1]
    ensures offset + 2 * |d| - 1 <= |store| && store[offset + 2 * |d| - 2] == Mth(h, d)
  {
    FirstOfPower2(|d|);
    assert Positions(0, 2 * |d| - 1) == [];
    StoredOfPower2(h, d);
    PostOrderLast(h, d);
  }

  method Reverse(hashes: seq<Digest>) returns (reverse: seq<Digest>)
    ensures reverse == Reversed(hashes)
  {
    reverse := [];
    for k := 0 to |hashes|
      invariant |reverse| == k && forall i :: 0 <= i < k ==> reverse[i] == hashes[|hashes| - 1 - i]
    {
      reverse := reverse + [hashes[|hashes| - k - 1]];
    }
  }

  /** The loop of AppendHash over the trailing ones of the size. */
  method MergeUp(h: TreeHasher, hashes: seq<Digest>, treeSize: Uint32, leaf: Digest)
    returns (size: nat, up: Digest, storehashes: seq<Digest>, height: nat)
    requires |hashes| == CountBit(treeSize)
    ensures size <= |hashes| && height == LowBit(treeSize + 1)
    ensures Carry(h, hashes, treeSize, leaf) == (hashes[..size] + [up], storehashes)
  {
    size, up, storehashes, height := |hashes|, leaf, [leaf], 1;
    var s: Uint32 := treeSize;
    ghost var all := Carry(h, hashes, treeSize, leaf);
    assert hashes[..size] == hashes;
    while s % 2 == 1
      invariant size <= |hashes| && size == CountBit(s)
      invariant height as int + LowBit(s + 1) - 1 == LowBit(treeSize + 1)
      invariant Carry(h, hashes[..size], s, up).0 == all.0
      invariant storehashes + Carry(h, hashes[..size], s, up).1[1..] == all.1
      decreases s
    {
      LowBitSucc(s);
      CarryStep(h, hashes, size, s, up, storehashes);
      height := height + 1;
      up := h.HashChildren(hashes[size - 1], up);
      storehashes := storehashes + [up];
      size := size - 1;
      s := s / 2;
    }
    LowBitSucc(s);
    assert storehashes + [] == storehashes;
  }

  lemma {:induction false} CarryStep(h: TreeHasher, hashes: seq<Digest>, size: nat, s: nat, up: Digest,
                                     stored: seq<Digest>)
    requires 0 < size <= |hashes| && s % 2 == 1
    ensures var next := h.HashChildren(hashes[size - 1], up);
            var a, b := Carry(h, hashes[..size], s, up), Carry(h, hashes[..size - 1], s / 2, next);
            a.0 == b.0 && stored + a.1[1..] == (stored + [next]) + b.1[1..]
  {
    var next := h.HashChildren(hashes[size - 1], up);
    var a, b := Carry(h, hashes[..size], s, up), Carry(h, hashes[..size - 1], s / 2, next);
    assert hashes[..size][..size - 1] == hashes[..size - 1];
    assert a.1[1..] == b.1 == [next] + b.1[1..];
    Assoc(stored, [next], b.1[1..]);
  }
}
