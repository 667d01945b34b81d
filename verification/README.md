# Verified core of the ledger: Merkle log, trie, consensus and codecs

The project models the parts of the repository that other nodes have to be able to trust, and proves
what they are for.

- **The append-only Merkle log** (`merkle/`). `MerkleSpec.dfy` writes down sections 2.1, 2.1.1 and
  2.1.2 of RFC 6962; `MerkleFrontier.dfy` relates them to a frontier of perfect subtrees and a
  post-order store; `MerkleTree.dfy`, `MerkleVerifier.dfy`, `MerkleHasher.dfy` and `MerkleBits.dfy`
  hold the code. Leaf paths travel through the zero-copy codec of `ZeroCopy.dfy`.
- **The Merkle Patricia trie** (`trie/`, `rlp/`). `TrieShape.dfy` is the trie without hashes,
  `TrieStore.dfy` the same operations on nodes some of which are only known by hash,
  `TrieHasher.dfy` hashing and storing, `TrieCache.dfy` the hashes cached in nodes and exactly when a
  commit stores the trie, `TrieProof.dfy` proofs, `TrieApi.dfy` the object. `TrieEncoding.dfy`,
  `TrieNode.dfy`, `TrieSize.dfy`, `Rlp.dfy` and `RlpEncBuf.dfy` are the formats, `TriePanics.dfy` the
  bytes on which the node decoder panics.
- **dBFT** (`consensus/dbft/`). `DbftModel.dfy` gives every handler as a function of the context, the
  event and what ledger, pool and clock answer; `DbftSafety.dfy` proves what every run keeps and
  agreement within a view, `DbftEffects.dfy` says by conditions what every event changes and leaves,
  `DbftHandlers.dfy` what each handler keeps and decides, `DbftQuorums.dfy` how large the quorum is and
  `DbftProgress.dfy` that a silent minority stops neither a view change nor a block; `Dbft.dfy` is the
  service that changes its context field by field. `DbftEdges.dfy` (resets, relayed indices, a lone
  bookkeeper's view counter) and `DbftTurns.dfy` (the rotation of primaries) say exactly where the code
  fails.
- **VBFT** (`consensus/vbft/block_pool.go`). `Vbft.dfy`: the candidate pool and its quorum counts.
- **Points** (`crypto/encode.go`). `Lucas.dfy`, `NumberTheory.dfy`, `PowerSums.dfy`,
  `QuadraticRing.dfy`, `Points.dfy`: the fast Lucas sequence, square roots modulo a prime and the byte
  forms of public keys.
- **Multi-signatures and big integers**. `MultiSig.dfy`, `NeoBigInt.dfy`.

Hash functions are parameters, and nothing is assumed of them. Since digests are short, collisions
exist; a soundness statement therefore never says "unless there is a collision" but names the two byte
strings, computed from what was accepted (`InclusionClash`, `ConsistencyClash`, `PathClash`,
`ProofClash`, `FirstClash`).

## Where the code does less than it promises

Each is shown by the members named with it; where the property fails for a family of inputs, one of
them states the exact condition for all inputs.

- `VerifyConsistency` accepts any proof when the old size is zero or the two roots are equal;
  `ConsistencyExact` shows those are the only such cases.
- `ConsistencyProof(0, n)` for `n >= 1` reads its store at position 2^32 - 1. Over the in-memory store it
  panics; over the file store it answers with the empty hash in front of the audit path of leaf 0. No
  other call reads outside the store (`ConsistencyProof`, `SubProofDown`).
- `MerkleProve` divides the remaining length by 32 although a step takes 33 bytes, so a written path is
  accepted exactly when it has fewer than 32 steps (`ProvedExact`); `MAX_SIZE` keeps written paths short.
- An empty value in slot 16 of a full node is read back as no value (`FullRoundTripExact`).
- `Hash` marks nodes as written, and a later `Commit` skips them (`HashThenCommit`, `UpdateLost`). A
  commit stores the trie exactly when every hash cached before it has its entry in the database or is
  written by the commit itself (`CommitExact`).
- `readKind` indexes past the end: `Split` panics exactly on a lone byte `0x81` (`SplitPanicExact`),
  `CountValues` exactly on whole values followed by one (`CountPanicExact`), and `decodeNode` exactly on
  the buffers described by `NodePanics`.
- `fastLucasSequence` multiplies by the modulus at line 129 where it should reduce, so its first result
  is right exactly for odd indices or when the modulus divides the true value (`FastLucasSequence`).
- For a prime modulus that is 1 modulo 4, `curveSqrt` refuses zero, which is a square, and otherwise
  refuses exactly the numbers without a square root (`CurveSqrt`, `ZeroFails`). A compressed point with
  y = 0 is therefore not decoded there (`CompressRoundTrip`).
- A dBFT bookkeeper that resets twice at one height can vote for two blocks in one view
  (`SecondResetVotesAgain`); a reset keeps one vote per view exactly when no vote was cast at the new
  height or beyond (`ResetKeepsExact`). No other event can break it (`StepExact`).
- The view counters are bytes. A bookkeeper that asks past view 255 takes its own expected view back to
  0 (`NextViewGrows`). Where there are two or more that does no harm: the others a quorum needs still
  stand behind the view, so it never goes back (`StepKeeps`, `ViewsForward`). A lone bookkeeper is reset
  by it, and one whose timer runs out 512 times votes again in view 0 (`WrapVotesAgain`); the
  configuration refuses fewer than four bookkeepers (`cmd/config.go:104`).
- A relayed signature with an index outside the list of bookkeepers panics the handler exactly when the
  loop reaches it before a quorum stops it (`PanicExact`); agreement holds all the same.
- The quorum n - (n-1)/3 is the least size of which any two groups share an honest bookkeeper exactly
  when 3 does not divide n; else one less would do, as two of three bookkeepers (`QuorumLeastExact`,
  `ThreeNeedTwo`).
- n views in a row have n different primaries exactly when they lie on one side of the height or n
  divides 2^32 (`NoneTwiceExact`, `EachPrimaryOnce`, with `TurnsRepeat` as an instance).
- `VerifyMultiSignature` gives a signature the first key that fits, which can take the only key of a
  later one. One call is exact when listed signatures that share a listed key share all of them
  (`UniformExact`, `OneKeyExact`), and all calls on selections of the listed ones are exact only then
  (`ExactIffUniform`).

## Model

| member | source | states |
|---|---|---|
| MerkleBits.CountBits | merkle/util.go:22-29 | the loop that clears the lowest one digit runs once per one digit |
| MerkleBits.IsPowerOf2 | merkle/util.go:31-33 | true exactly for the powers of two |
| MerkleBits.HighestBit | merkle/util.go:37-44 | the position of the highest one digit, 0 for 0 |
| MerkleBits.LowestBit | merkle/util.go:48-50 | `highBit(num & -num)` on 32-bit words is the position of the lowest one digit |
| MerkleSpec.ChildrenInputInjective | merkle/merkle_hasher.go:51-55 | different pairs of children have different hash inputs |
| MerkleSpec.HashLayout | merkle/merkle_hasher.go:40-55 | a node hashes exactly the 65 bytes 01, left digest, right digest; a leaf exactly 00 and its data; the empty tree no bytes |
| MerkleSpec.MthRoot | merkle/merkle_hasher.go:92-115 | the recursive tree hash is the one root described by such bytes at every level, split at the largest smaller power of two |
| MerkleSpec.PairRoot | merkle/merkle_hasher.go:51-55 | the root of two leaves is the hash of any 65 bytes that are 01, the first, the second |
| MerkleSpec.PairUpKeepsMth | merkle/merkle_hasher.go:171-193 | replacing a whole level by its parents, the odd node promoted, keeps the recursive tree hash |
| MerkleSpec.PathByLevel | merkle/merkle_tree.go:298-337 | an audit path is the sibling followed by the audit path of the parent one level up |
| MerkleFrontier.FoldFrontier | merkle/merkle_tree.go:109-118 | folding the roots of the perfect subtrees gives the recursive tree hash |
| MerkleFrontier.FoldFrontierAndLeaf | merkle/merkle_tree.go:121-126 | folding them with one more leaf gives the tree hash of the longer list |
| MerkleFrontier.ReversedFrontierIsPath | merkle/merkle_tree.go:158-185 | the reversed frontier is the audit path of the leaf appended next |
| MerkleFrontier.AppendLeaf | merkle/merkle_tree.go:158-185 | the binary-counter carry turns frontier and post-order store of a list into those of the list with one more leaf |
| MerkleFrontier.ReadFrontier | merkle/merkle_tree.go:211-239 | reading the store at the summed subtree sizes yields the frontier of any stored list |
| MerkleFrontier.StoredPrefix | merkle/merkle_tree.go:230-239 | the store only grows: what a prefix of the leaves stored is a prefix of the store |
| MerkleTree.GetSubTreeSize | merkle/merkle_tree.go:196-208 | the loop over binary digits lists the post-order sizes of the perfect subtrees |
| MerkleTree.GetSubTreePos | merkle/merkle_tree.go:211-227 | in-place prefix sums give the 1-based store positions of the subtree roots |
| MerkleTree.GetStoredHashNum | merkle/file_hash_store.go:68-76 | the sum of the subtree sizes is the length of the post-order listing |
| MerkleTree.HashFold | merkle/merkle_hasher.go:117-125 | the loop from the right end equals the recursive fold |
| MerkleTree.SplitByBits | merkle/merkle_tree.go:255 | the power of two found with `highBit` is the split of RFC 6962 |
| MerkleTree.StateRoundTrip | merkle/merkle_tree.go:69-94 | parsing a marshalled state gives size and hashes back, whatever bytes follow |
| MerkleTree.StateLayout | merkle/merkle_tree.go:69-78 | the size in four bytes, the highest first, and the hashes in order at 4 + 32 i |
| MerkleTree.CompactMerkleTree.constructor | merkle/merkle_tree.go:47-59 | given the frontier and store of some leaves, the tree of those leaves |
| MerkleTree.CompactMerkleTree.Marshal | merkle/merkle_tree.go:69-78 | bytes that parse back to the state |
| MerkleTree.CompactMerkleTree.UnMarshal | merkle/merkle_tree.go:80-94 | succeeds exactly on long enough buffers, and a marshalled tree comes back as the same tree |
| MerkleTree.CompactMerkleTree.Root | merkle/merkle_tree.go:109-118 | the recursive tree hash of all leaves appended so far, cached or not |
| MerkleTree.CompactMerkleTree.GetRootWithNewLeaf | merkle/merkle_tree.go:121-126 | the tree hash with one more leaf; the tree is unchanged |
| MerkleTree.CompactMerkleTree.CloneMem | merkle/merkle_tree.go:129-139 | a fresh tree of the same leaves without a store |
| MerkleTree.CompactMerkleTree.GetRootWithNewLeaves | merkle/merkle_tree.go:141-148 | the tree hash with several more leaves |
| MerkleTree.CompactMerkleTree.Append | merkle/merkle_tree.go:151-155 | appends the leaf hash of the data and returns its audit path |
| MerkleTree.CompactMerkleTree.AppendHash | merkle/merkle_tree.go:158-185 | after any appends frontier, store, lowest digit and root cache are those of the leaves, and the result is the new leaf's audit path |
| MerkleTree.CompactMerkleTree.MerkleRoot | merkle/merkle_tree.go:230-239 | for every 1 <= n <= treeSize the tree hash of the first n leaves, read from the store |
| MerkleTree.CompactMerkleTree.InclusionProof | merkle/merkle_tree.go:298-337 | exactly the audit path of RFC 6962, and each of the three errors in its case |
| MerkleTree.CompactMerkleTree.ConsistencyProof | merkle/merkle_tree.go:242-248 | exactly the consistency proof of RFC 6962 for 1 <= m <= n, nil in its cases, and for m = 0 < n a panic over the in-memory store and the empty hash before the audit path of leaf 0 over the file store |
| MerkleTree.CompactMerkleTree.SubProofDown | merkle/merkle_tree.go:251-294 | the descent computes SUBPROOF, for an old size of zero too, in 32-bit arithmetic; it reads outside the store exactly for 0 = m < n, and its "assert error" panic is unreachable |
| MerkleTree.CompactMerkleTree.ReadRoot | merkle/merkle_tree.go:257-263 | the moved positions, read and folded, give the root of the right part; one below zero they give what the store answers past its end |
| MerkleVerifier.CalculateRootFromAuditPath | merkle/merkle_tree.go:400-427 | the bit-walking loop equals the recursive walk, errors for short and long proofs included |
| MerkleVerifier.VerifyLeafHashInclusion | merkle/merkle_tree.go:362-380 | accepts exactly when the walk ends in the root |
| MerkleVerifier.InclusionComplete | merkle/merkle_tree.go:362-427 | every honest audit path is accepted for every leaf of every tree |
| MerkleVerifier.InclusionSound | merkle/merkle_tree.go:362-427 | an accepted leaf and path are the honest ones, or the computed pair of inputs collides |
| MerkleVerifier.VerifyConsistency | merkle/merkle_tree.go:464-566 | the loops equal the recursive two-root climb, every early return and error included |
| MerkleVerifier.ConsistencyComplete | merkle/merkle_tree.go:464-566 | every honest consistency proof between every two sizes is accepted |
| MerkleVerifier.ConsistencySound | merkle/merkle_tree.go:464-566 | an accepted proof between different roots is the honest one for the true root of the prefix, or the computed pair collides |
| MerkleVerifier.ConsistencyExact | merkle/merkle_tree.go:464-566 | short of that collision, accepted if and only if the old size is zero, the roots are equal, or root and proof are the honest ones |
| ZeroCopy.LittleEndianRoundTrip | common/zero_copy_sink.go:104-117 | fixed-width little-endian numbers are read back |
| ZeroCopy.LittleEndianAt | common/zero_copy_sink.go:104-117 | byte i is digit i to the base 256 |
| ZeroCopy.ZeroCopySink.NextBytes | common/zero_copy_sink.go:71-80 | room for n bytes by reslicing or by moving, contents kept |
| ZeroCopy.ZeroCopySink.WriteBytes | common/zero_copy_sink.go:64-67 | the contents become the old ones followed by the bytes |
| ZeroCopy.ZeroCopySink.WriteVarUint | common/zero_copy_sink.go:159-181 | taking nine bytes and handing the rest back appends the shortest tagged form |
| ZeroCopy.ZeroCopySink.WriteVarBytes | common/zero_copy_sink.go:131-137 | appends the length in that form and the bytes |
| ZeroCopy.VarUintRoundTrip | common/zero_copy_source.go:216-256 | a written number is read back with its size, regular, whatever follows |
| ZeroCopy.VarUintCanonical | common/zero_copy_source.go:216-256 | whatever is read without an irregularity is the one written form of its value |
| ZeroCopy.VarUintShortest | common/zero_copy_source.go:216-256 | no form that reads as a number is shorter than the written one, and a reading is irregular exactly if it took more |
| ZeroCopy.ZeroCopySource.NextBytes | common/zero_copy_source.go:54-65 | the next n bytes, or all that is left at the end of file |
| ZeroCopy.ZeroCopySource.NextVarUint | common/zero_copy_source.go:216-256 | value, size, irregularity and end of file as the format says, and how far the offset moves |
| ZeroCopy.ZeroCopySource.NextVarBytes | common/zero_copy_source.go:164-174 | the counted bytes after the number, irregularity and end of file passed on |
| MerkleHasher.HashFullOk | merkle/merkle_hasher.go:92-115 | for every slice of the leaves the "left tree always full" panic is unreachable and the result is the root and the frontier of the slice |
| MerkleHasher.HashFullTreeWithLeafHash | merkle/merkle_hasher.go:57-80 | the recursive tree hash for every list of leaf hashes, and both its panics, on the number of hashes and on their fold, are unreachable |
| MerkleHasher.MerkleHashes | merkle/merkle_hasher.go:171-193 | all levels by pairing, each with the recursive tree hash of the leaves |
| MerkleHasher.DepthIsCeilLog | merkle/merkle_hasher.go:225-227 | the depth is the least number of doublings that reaches the count, and the ceiling of the floating-point logarithm is that number exactly when the count is a power of two or rounding leaves the logarithm between the exponents around it |
| MerkleHasher.GetIndex | merkle/merkle_hasher.go:229-236 | the first position of the leaf, and -1 exactly if it is nowhere |
| MerkleHasher.MerkleLeafPath | merkle/merkle_hasher.go:138-169 | the bytes of the data and of the steps from its first occurrence to the root, and each error in its case |
| MerkleHasher.StepsLayout | merkle/merkle_hasher.go:138-169 | step i is byte 0 for a sibling on the left and 1 for one on the right, at 33 i, and the sibling |
| MerkleHasher.LeafStepsReachRoot | merkle/merkle_hasher.go:138-169 | climbing the written steps from the leaf ends in the recursive tree hash |
| MerkleHasher.MerkleProve | merkle/merkle_hasher.go:195-223 | the reading loop equals parsing all steps and climbing them |
| MerkleHasher.ProvedExact | merkle/merkle_hasher.go:195-223 | a written path is accepted if and only if it has fewer than 32 steps |
| MerkleHasher.LeafPathAccepted | merkle/merkle_hasher.go:138-223 | every path `MerkleLeafPath` returns within its size limit is accepted with the original data |
| MerkleHasher.ProveSound | merkle/merkle_hasher.go:195-223 | whatever path is accepted against the root of some values, the result is one of them, or the computed pair collides |
| Rlp.PutIntIsBigEndian | rlp/encode.go:420-476 | the eight hand-written cases are big-endian without leading zeros |
| Rlp.IntSize | rlp/encode.go:478-484 | the length of that form |
| Rlp.SplitEncode | rlp/raw.go:60-66 | `Split` on an encoding followed by anything returns kind, content and the rest |
| Rlp.SplitCanonical | rlp/raw.go:60-146 | whatever `Split` accepts is the one encoding of what it returns |
| Rlp.SplitPanicExact | rlp/raw.go:60-117 | `Split` panics if and only if the input is the lone byte 0x81 |
| Rlp.SplitErrors | rlp/raw.go:60-146 | which input is refused with which error: a header cut short, an overlong size, content cut short |
| Rlp.CountValues | rlp/raw.go:68-78 | the loop counts values as the recursive definition does, its errors included |
| Rlp.CountEncodeAll | rlp/raw.go:68-78 | a concatenation of n encodings counts n |
| Rlp.CountPanicExact | rlp/raw.go:68-117 | counting panics if and only if the input is whole values followed by a lone 0x81 |
| Rlp.CountErrors | rlp/raw.go:68-78 | counting fails with an error if and only if whole values are followed by a value that `Split` refuses with it |
| RlpEncBuf.EncodeLength | rlp/encode.go:94-96 | flat bytes and head sizes add up to the length of the encoding |
| RlpEncBuf.WeaveIsEncode | rlp/encode.go:73-111 | flat bytes with the heads put in at their offsets are the recursive encoding of every nested item |
| RlpEncBuf.EncBuf.EncodeString | rlp/encode.go:113-120 | appends the encoding of one string |
| RlpEncBuf.EncBuf.ListEnd | rlp/encode.go:132-139 | back-patches the size of a closed list and adds the length of its head |
| RlpEncBuf.EncBuf.Write | rlp/encode.go:59-66 | writing a nested item appends its flat bytes and its heads, outer before inner |
| RlpEncBuf.EncBuf.ToBytes | rlp/encode.go:98-111 | the copied buffer is the recursive encoding |
| RlpEncBuf.EncBuf.ToWriter | rlp/encode.go:73-92 | the written stream is the recursive encoding |
| RlpEncBuf.EncodeToBytes | rlp/encode.go:157-165 | the two passes together compute recursive RLP |
| TrieEncoding.KeyBytesToHex | trie/encoding.go:54-63 | nibbles in order and a terminator |
| TrieEncoding.KeyHexInjective | trie/encoding.go:54-63 | different keys have different nibble strings |
| TrieEncoding.HexToCompact | trie/encoding.go:21-36 | the in-place loops produce the hex-prefix form |
| TrieEncoding.CompactRoundTrip | trie/encoding.go:21-52 | the hex-prefix form decodes to the nibbles and terminator it came from |
| TrieEncoding.CompactLayout | trie/encoding.go:21-36 | the flags and an odd first nibble in the first byte, then two nibbles a byte, the higher first |
| TrieEncoding.CommonPrefix | trie/encoding.go:65-76 | the length of the longest common prefix |
| TrieEncoding.PrefixFree | trie/encoding.go:54-63 | no terminated key is a proper prefix of another |
| TrieShape.InsertGet | trie/trie.go:132-184 | after an insertion the key has the value and every other key what it had |
| TrieShape.InsertCanon | trie/trie.go:132-184 | insertion keeps the canonical shape |
| TrieShape.DeleteGet | trie/trie.go:202-272 | after a deletion the key is gone and every other key has what it had |
| TrieShape.DeleteCanon | trie/trie.go:202-272 | deletion keeps the canonical shape: no short under short, no branch with one child |
| TrieShape.CanonUnique | trie/trie.go:132-272 | two canonical tries with the same answers are the same trie |
| TrieShape.RunImplements | trie/trie.go:116-200 | every run of updates and removals refines map update and removal |
| TrieShape.HistoryIndependent | trie/trie.go:132-272 | two runs that end in the same map end in the same trie |
| TrieNode.FillChildren | trie/node.go:164-181 | the loop over sixteen children reads them in order, with its failures |
| TrieNode.DecodeRefOf | trie/node.go:185-204 | a child reference, embedded, hashed or empty, is read back with the rest of the bytes |
| TrieNode.DecodeNodeOf | trie/node.go:117-141 | decoding the encoding of a node gives the node with its children as references |
| TrieNode.FullRoundTripExact | trie/node.go:164-183 | a full node is read back if and only if its value slot does not hold an empty value |
| TriePanics.NodeReads | trie/node.go:117-204 | decoding succeeds if and only if the list is a pair of a key and a value or reference, or sixteen references and a value, a reference being empty, a hash or such a list of at most 32 bytes |
| TriePanics.NodePanics | trie/node.go:117-204 | decoding a node panics if and only if the buffer is a lone 0x81, or its list, or an embedded list the decoder comes to, ends in a lone 0x81 after whole values or is a pair with an empty key |
| TrieStore.ResolveOk | trie/trie.go:320-327 | a hash whose encoding is in the database resolves to a node for the same trie |
| TrieStore.TryGetOk | trie/trie.go:80-114 | lookup through hashed nodes returns the trie's answer, rewrites the node to one for the same trie and does not panic |
| TrieStore.TryInsertOk | trie/trie.go:132-184 | insertion on nodes is insertion on the trie, through unresolved hashes, and does not panic |
| TrieStore.ScanChildren | trie/trie.go:230-240 | the scan finds the only live child, none or several |
| TrieStore.TryDeleteOk | trie/trie.go:202-272 | deletion on nodes is deletion on the trie, collapses included, and does not panic |
| TrieHasher.CollapseChildren | trie/hasher.go:85-94 | the loop hashes the sixteen children in order |
| TrieHasher.HashedOk | trie/hasher.go:40-125 | hashing returns the reference of the trie, a cached node for the same trie, and writes every entry under its own hash |
| TrieHasher.HashedStored | trie/hasher.go:40-125 | after the writes every hash the trie refers to is in the database |
| TrieHasher.PutAllKeeps | trie/hasher.go:105-125 | the writes keep every entry, or the first replaced pair is a collision |
| TrieCache.GetCloses | trie/trie.go:80-114 | a lookup keeps the caches closed: below a cached hash every node referred to by hash is cached or a hash node |
| TrieCache.InsertCloses | trie/trie.go:132-184 | so does an insertion, forks and resolved nodes included |
| TrieCache.DeleteCloses | trie/trie.go:202-272 | so does a deletion, merges and collapses included |
| TrieCache.HashedCloses | trie/hasher.go:40-64 | hashing leaves the whole node closed |
| TrieCache.HashedWrites | trie/hasher.go:40-125 | hashing writes, children first, the encodings of exactly the uncached nodes referred to by hash and of an uncached root |
| TrieCache.CommitExact | trie/hasher.go:40-64 | a commit stores the whole trie if and only if every hash cached before it has its entry in the database or among the writes |
| TrieCache.HashThenCommit | trie/trie.go:274-302 | after `Hash` a commit writes nothing, so the root is stored only if it was before |
| TrieCache.UpdateLost | trie/trie.go:122-302 | one update, `Hash` and `Commit` on an empty database leave it empty |
| TrieProof.Prove | trie/proof.go:30-69 | the encodings of the nodes met on the way of the key, through resolved hashes and up to the first missing one |
| TrieProof.MetExact | trie/proof.go:30-69 | those nodes are the first on the key's way, and all of them if and only if a lookup of the key misses no entry |
| TrieProof.CutRefused | trie/proof.go:30-101 | what was written is accepted with the trie's answer when no entry was missing, and a proof cut short is refused |
| TrieProof.GetInNode | trie/proof.go:103-125 | the loop equals the recursive walk inside one decoded node |
| TrieProof.VerifyProof | trie/proof.go:71-101 | the loop equals the recursive verdict, each rejection included |
| TrieProof.VerifyComplete | trie/proof.go:71-101 | the honest proof is accepted with the trie's answer, for present and absent keys |
| TrieProof.VerifySound | trie/proof.go:71-101 | whatever is not rejected is the honest proof with the honest answer, or the computed pair collides |
| TrieProof.VerifyExact | trie/proof.go:71-101 | short of that collision the honest proof alone is accepted, and the verifier does not panic |
| TrieSize.SizedStorable | trie/hasher.go:105-125 | tries of keys and values below 2^60 bytes have encodings whose lengths fit in 64 bits |
| TrieApi.Trie.New | trie/trie.go:49-59 | opening the hash of a stored trie gives that trie; the zero hash gives an empty one, a missing one an error |
| TrieApi.Trie.TryGet | trie/trie.go:70-78 | the map's answer, and the root rewrite leaves the map unchanged |
| TrieApi.Trie.TryUpdate | trie/trie.go:122-130 | the map with the key updated |
| TrieApi.Trie.TryDelete | trie/trie.go:192-200 | the map with the key removed |
| TrieApi.Trie.Hash | trie/trie.go:297-302 | the hash of the trie's encoding |
| TrieApi.Trie.Commit | trie/trie.go:274-295 | the same hash, and unless a replaced entry collides the database holds the whole trie if and only if every hash cached before had its entry or was written |
| TrieApi.Trie.Prove | trie/proof.go:30-69 | the proof of the key in the trie the object stands for |
| TrieApi.HashOfContents | trie/trie.go:297-302 | root hash and proofs depend on the map alone, not on its history |
| TrieApi.Reopen | trie/trie.go:274-295 | commit then open gives a trie with the same map |
| Dbft.CountViews | consensus/dbft/dbft_service.go:171-177 | the loop counts the entries that ask for one view |
| DbftEffects.CountEqIs | consensus/dbft/dbft_service.go:171-177 | that count is the number of bookkeepers asking for the view |
| DbftEffects.CountSigsIs | consensus/dbft/consensus_context.go:168-177 | and that of signatures the number of bookkeepers with one on file |
| Dbft.GetSignaturesCount | consensus/dbft/consensus_context.go:168-177 | the loop counts the signatures present |
| Dbft.DbftService.InitializeConsensus | consensus/dbft/dbft_service.go:266-310 | for every view: height, primary, flags, timer, signatures and expected views of the context entered, the primary Primary and any other bookkeeper Backup with the timer at the new height and view; and a reset keeps the invariant if and only if no vote was cast at the new height or beyond |
| Dbft.DbftService.CheckExpectedView | consensus/dbft/dbft_service.go:162-184 | the view changes exactly on a quorum of equal expected views, only forward, without a vote, and the invariant is kept |
| Dbft.DbftService.ChangeViewReceived | consensus/dbft/dbft_service.go:241-252 | one sender's expected view is raised, none lowered, the view asked for is entered exactly if a quorum now asks for it, no vote is cast, and the invariant is kept |
| Dbft.DbftService.RequestChangeView | consensus/dbft/dbft_service.go:578-596 | the own expected view becomes one past the later of itself and the view, in a byte, and that view is entered exactly on a quorum; with two or more bookkeepers, at any counter, the invariant is kept, nothing the others ask for is taken back and no vote is cast |
| Dbft.DbftService.PrepareRequestReceived | consensus/dbft/dbft_service.go:376-496 | a vote is cast if and only if a backup without a proposal gets the primary's, signed for that block, with time, transactions, next bookkeepers and the own signature in order; a wrong signature, transaction or next bookkeeper leads to a view request, everything else to nothing; and the invariant is kept |
| Dbft.DbftService.PrepareResponseReceived | consensus/dbft/dbft_service.go:498-527 | a new signature of the block on file is filed in its slot and nothing else is; a block is generated if and only if one was filed, a quorum is on file and the ledger takes it; no vote and no view changes |
| Dbft.DbftService.BlockSignaturesReceived | consensus/dbft/dbft_service.go:529-573 | exactly the relayed signatures before the first quorum, bad index or end are filed; the bad index panics; else the block is generated if and only if a quorum is on file and the ledger takes it |
| Dbft.DbftService.Timeout | consensus/dbft/dbft_service.go:621-703 | a void timer does nothing, a primary signs and sends its proposal once, everyone else with a role asks for the next view; the invariant is kept if and only if no lone bookkeeper is reset to a height with votes |
| Dbft.DbftService.Receive | consensus/dbft/dbft_service.go:312-374 | which payloads are dropped without effect and what each of the others does; every payload, at any counter, keeps the invariant and adds votes of the current view only |
| Dbft.DbftService.Handle | consensus/dbft/dbft_service.go:96-131 | the effect of every event; it keeps the invariant, with one block hash per height and view, if and only if it is no reset to a height with votes; votes are never withdrawn |
| DbftEffects.InitializeEnters | consensus/dbft/dbft_service.go:266-310 | entering a view or a height gives exactly the described context, role and timer |
| DbftEffects.ProposalHas | consensus/dbft/dbft_service.go:376-496 | a proposal has exactly the described effect, slot by slot, in each case of its checks |
| DbftEffects.ResponseHas | consensus/dbft/dbft_service.go:498-527 | so has a response |
| DbftEffects.AddStops | consensus/dbft/dbft_service.go:529-573 | the loop over relayed signatures files a prefix of them, where it should stop |
| DbftEffects.RelayHas | consensus/dbft/dbft_service.go:529-573 | so have relayed signatures |
| DbftEffects.TimeoutHas | consensus/dbft/dbft_service.go:621-703 | so has a timeout |
| DbftEffects.StepIs | consensus/dbft/dbft_service.go:96-131 | the described relation and the step are one, for every event: nothing is left open |
| DbftHandlers.ProposalVoted | consensus/dbft/dbft_service.go:376-496 | in good standing, exactly when a proposal changes the votes, when it makes the next view asked for, and when it does nothing |
| DbftSafety.QuorumMajority | consensus/dbft/consensus_context.go:59-62 | a quorum is more than half of the bookkeepers |
| DbftSafety.ViewsForward | consensus/dbft/dbft_service.go:162-184 | a quorum asking for one view other than the current one asks for a later one, whatever this bookkeeper's own counter did |
| DbftSafety.NextViewGrows | consensus/dbft/dbft_service.go:578-596 | the next view exceeds both counters if and only if neither is 255 |
| DbftSafety.StepKeeps | consensus/dbft/dbft_service.go:96-131 | every event but a reset to a height with votes keeps the invariant, and one that does not reset to a height already reached takes back no view and nothing the others ask for |
| DbftSafety.StepRises | consensus/dbft/dbft_service.go:96-131 | as long as no counter passes 255, a whole quorum stays behind the view and no expected view is taken back |
| DbftSafety.RunKeeps | consensus/dbft/dbft_service.go:96-131 | so does every run, past view 255, panics and restarts included, and no vote is withdrawn |
| DbftSafety.RunRises | consensus/dbft/dbft_service.go:96-131 | so does every run in which no counter passes 255 |
| DbftSafety.ReachedOk | consensus/dbft/dbft_service.go:606-619 | in everything reachable from a start: one block hash per height and view, a quorum but for this bookkeeper behind every view, and a backup that generated a block holds a quorum of signatures of that block |
| DbftSafety.QuorumsMeet | consensus/dbft/consensus_context.go:59-62 | two quorums share more bookkeepers than may be faulty |
| DbftQuorums.QuorumLeft | consensus/dbft/consensus_context.go:59-62 | the bookkeepers without the faulty ones make a quorum if and only if at most (n-1)/3 are faulty, and just one if that many are |
| DbftQuorums.MeetExact | consensus/dbft/consensus_context.go:59-62 | any two groups of q bookkeepers share one more than may be faulty if and only if 2 q > n + (n-1)/3 |
| DbftQuorums.QuorumLeastExact | consensus/dbft/consensus_context.go:59-62 | no smaller size always meets if and only if 3 does not divide n, and else just one less does |
| DbftQuorums.ThreeNeedTwo | consensus/dbft/consensus_context.go:59-62 | any two of three bookkeepers meet while the quorum is three |
| DbftProgress.RequestsMove | consensus/dbft/dbft_service.go:162-252 | after any requests for one view, in any order, the view is entered if and only if those asking for it are a quorum |
| DbftProgress.SilentCannotHoldView | consensus/dbft/dbft_service.go:162-252 | when all but (n-1)/3 bookkeepers ask for a view it is entered |
| DbftProgress.SignaturesMake | consensus/dbft/dbft_service.go:192-239 | after any good signatures, in any order, the block is generated if and only if the signers are a quorum |
| DbftProgress.SilentCannotStopBlock | consensus/dbft/dbft_service.go:192-239 | when all but (n-1)/3 bookkeepers sign, the block is generated |
| DbftSafety.Agreement | consensus/dbft/dbft_service.go:376-703 | with at most (n-1)/3 faulty bookkeepers, two quorums of votes in one view are for one block, whatever payloads were delivered, those that panic a handler or drive a counter past 255 included |
| DbftEdges.ResetKeepsExact | consensus/dbft/dbft_service.go:146-151 | a reset keeps one block hash per height and view if and only if no vote was cast at the new height or beyond |
| DbftEdges.StepExact | consensus/dbft/dbft_service.go:96-131 | an event keeps the invariant if and only if it is no reset to a height with votes, and resets are saved blocks and the wrap of a lone bookkeeper past view 0, nothing else |
| DbftEdges.SecondResetVotesAgain | consensus/dbft/consensus_context.go:192-231 | a second reset at one height lets the primary vote for another block |
| DbftEdges.PanicExact | consensus/dbft/dbft_service.go:529-573 | the loop over relayed signatures panics if and only if it reaches an index outside the list before the signatures counted make a quorum |
| DbftEdges.WrapVotesAgain | consensus/dbft/dbft_service.go:578-596 | a lone bookkeeper whose timer runs out 512 times is back at view 0 and votes there for another block |
| DbftTurns.NoneTwiceExact | consensus/dbft/consensus_context.go:69-85 | no bookkeeper is primary twice in n views in a row if and only if they lie on one side of the height or n divides 2^32 |
| DbftTurns.EachPrimaryOnce | consensus/dbft/consensus_context.go:69-85 | under that condition, and only then, each bookkeeper is primary exactly once |
| DbftTurns.TurnsGoDown | consensus/dbft/consensus_context.go:69-85 | view 0 is the turn of the height's remainder, and each view up to the height that of the bookkeeper before |
| DbftTurns.TurnsRepeat | consensus/dbft/consensus_context.go:69-85 | at height 1 the first of five bookkeepers is primary in views 1 and 2 |
| Vbft.AddEndorsement | consensus/vbft/block_pool.go:264-291 | one empty endorsement at most, the last, and different proposers before it |
| Vbft.AddSignatures | consensus/vbft/block_pool.go:470-481 | the endorsements of a commit are added, with the same result in every order |
| Vbft.EndorsesIt | consensus/vbft/block_pool.go:264-291 | after an endorsement its endorser backs its proposer or the empty block besides all backed before, unless already for the empty block, and nobody else's list changes |
| Vbft.CommitsIt | consensus/vbft/block_pool.go:452-494 | after a commit its signers are on record for its block, those for the empty block before excepted, the committer for nothing else, and nobody newly for anything else |
| Vbft.CommitCounts | consensus/vbft/block_pool.go:452-494 | all those signers count for the commit's proposer |
| Vbft.EndorsedEnough | consensus/vbft/block_pool.go:333-351 | in every map order, done if and only if some proposer or the empty choice has more than C distinct endorsers, and the answer names one |
| Vbft.CountSignatures | consensus/vbft/block_pool.go:520-553 | in every map order, a proposer is found only with more distinct signers than the bound, and the block is empty only if the empty endorsements, those of non-endorsers twice, are more too |
| Vbft.CommittedEnough | consensus/vbft/block_pool.go:506-560 | a proposer found by signatures has at least N - C distinct signers; none found means none has; for the empty block there are N - C empty endorsements as counted |
| Vbft.BlockPool.NewBlockProposal | consensus/vbft/block_pool.go:130-162 | one proposal per proposer, which then backs itself; an error exactly for a second, different one |
| Vbft.BlockPool.NewBlockEndorsement | consensus/vbft/block_pool.go:296-307 | who backs whom afterwards: the endorser the proposer or the empty block besides all before, everyone else as before |
| Vbft.BlockPool.NewBlockCommitment | consensus/vbft/block_pool.go:452-494 | one commit per committer; who backs whom afterwards: its signers its proposer or the empty block, the committer nothing else, everyone else as before; an error exactly for a second, different one |
| Vbft.BlockPool.EndorseDone | consensus/vbft/block_pool.go:317-352 | in every pool these operations can make, done if and only if there is a quorum of distinct endorsers |
| Vbft.BlockPool.CommitDone | consensus/vbft/block_pool.go:506-560 | in every such pool a proposer found by signatures has at least N - C distinct signers, and the same holds of the empty endorsements when the commit is for the empty block |
| Vbft.BlockPool.SetProposalCommitted | consensus/vbft/block_pool.go:418-447 | a block commits to one proposal once, empty or not, and an error changes nothing |
| Vbft.BlockPool.SetBlockSealed | consensus/vbft/block_pool.go:641-693 | a sealed block is never replaced; the same proposer again is no error |
| Lucas.AddIndices | crypto/encode.go:59-141 | w(m+n) = w(m) V(n) - Q^n w(m-n) for every sequence of the recurrence |
| Lucas.GetLowestSetBit | crypto/encode.go:51-56 | the lowest one digit |
| Lucas.FastLucasSequence | crypto/encode.go:59-141 | V(k) modulo p for every k >= 1, U(k) for odd k, and exactly when the first result is U(k) |
| QuadraticRing.HalfwaySquare | crypto/encode.go:197-211 | when Q passes Euler's test and D fails it, V((p+1)/2) squares to 4 Q modulo a prime p |
| Points.PowerRootExact | crypto/encode.go:145-160 | for a prime 3 modulo 4 the power finds a square root if and only if there is one |
| Points.EulerTest | crypto/encode.go:163-172 | a square other than zero passes the test before the loop |
| Points.TestExact | crypto/encode.go:163-172 | modulo an odd prime exactly the squares other than zero pass it |
| Points.SomeAccepted | crypto/encode.go:188-203 | for every number but zero, some number below the prime passes the test of the inner loop |
| Points.ZeroFails | crypto/encode.go:163-172 | zero is a square and fails it |
| Points.CurveSqrt | crypto/encode.go:144-222 | whatever is returned squares to the input for every odd modulus; for a prime 1 modulo 4 it refuses exactly zero and the numbers that are no squares, and otherwise succeeds with the first number it accepts |
| Points.DeCompressSound | crypto/encode.go:225-253 | a decompressed point is on the curve and has the parity asked for |
| Points.RecodeExact | crypto/encode.go:255-320 | encoding what was decoded gives the same bytes if and only if they were a compressed form, the 65-byte form with tag 4 or the single zero |
| Points.DecodeExact | crypto/encode.go:255-287 | which first bytes and lengths give infinity, coordinates, an error or a slice out of range, and the coordinates and parity of what decodes |
| Points.CompressRoundTrip | crypto/encode.go:225-320 | every affine point of a curve over a prime is decoded from its compressed form to itself, except for a prime 1 modulo 4 the points with y = 0 and those for which no drawn number is accepted, which are refused |
| Points.UncompressedRoundTrip | crypto/encode.go:255-320 | every pair of 32-byte coordinates survives the uncompressed form |
| Points.DecodePoint | crypto/encode.go:255-287 | the decoding as it runs: compressed results are on the curve and re-encode to the input; for a prime 1 modulo 4 a compressed form decodes if and only if its right side is a square other than zero and a drawn number is accepted |
| MultiSig.CheckMultiSig | vm/func_crypto.go:69-82 | true if and only if the signatures have valid keys in the same order |
| MultiSig.VerifyMultiSignature | crypto/crypto.go:124-153 | accepts exactly when the greedy choice finds a key for each of the first m signatures |
| MultiSig.AcceptsSound | crypto/crypto.go:124-153 | accepted signatures have different valid keys |
| MultiSig.AcceptsComplete | crypto/crypto.go:124-153 | signatures that can be assigned are accepted when the listed ones that share a listed key share all of them |
| MultiSig.UniformExact | crypto/crypto.go:124-153 | one call under that condition on its own inputs accepts if and only if an assignment exists |
| MultiSig.OneKeyExact | crypto/crypto.go:124-153 | so does one call where no signature is good under two different listed keys |
| MultiSig.ExactIffUniform | crypto/crypto.go:124-153 | every call on selections of the listed signatures and keys is exact if and only if the listed ones meet the condition |
| MultiSig.Refused | crypto/crypto.go:124-153 | without it two assignable signatures are refused |
| NeoBigInt.BytesReverse | common/bigint.go:23-28 | the array is reversed in place |
| NeoBigInt.Invert | common/bigint.go:42-44 | every byte is complemented in place |
| NeoBigInt.Increment | common/bigint.go:45-52 | the carry loop adds one in place |
| NeoBigInt.BigIntToNeoBytes | common/bigint.go:33-62 | the shortest two's complement form of every integer |
| NeoBigInt.BigIntFromNeoBytes | common/bigint.go:64-90 | the two's complement value of every byte string |
| NeoBigInt.NeoRoundTrip | common/bigint.go:33-90 | every integer comes back from its bytes |
| NeoBigInt.NeoCanonical | common/bigint.go:33-90 | a byte string comes back from its value if and only if it is minimal |
| NeoBigInt.NeoShortest | common/bigint.go:33-62 | no byte string of the same value is shorter, and none of the same length is another one |

## Left out

- The file hash store: opening, checking and flushing files; what it answers at a position is modelled.
- Merkle trees of 2^31 leaves or more: store positions no longer fit in 32 bits.
- MerkleHasher.DepthIsCeilLog: the rounded logarithm is an argument; that Go's `math.Log2` rounds as required is not shown. `MerkleHashes` takes the depth of the integers.
- Sharing of slices between callers: sequences are values, so writes through an alias are not seen.
- The sink's panic when memory runs out.
- The secure trie, which hashes its keys first, and a trie without a database.
- RLP by reflection on Go types and the stream decoder: items are modelled directly.
- SHA-256, ECDSA, SM2 and key generation: hashes are parameters and signatures symbolic or a relation.
- Agreement of dBFT across views: a backup drops its SignatureSent flag on a view change and may sign another block.
- Who sent a dBFT payload: any payload may claim any sender, which the proofs allow for.
- The bookkeepers a proposal announces for the next block: how the ledger picks the next list is an input.
- Timers, actors and locks: each message is one step.
- DbftSafety.StepKeeps: does not cover a reset to a height with votes, where the code itself fails as shown above.
- DbftSafety.Agreement: speaks of honest bookkeepers whose runs stay clear of that case.
- What an actor does after a panic beyond being started again on the same object.
- Vbft.BlockPool.CommitDone: does not say that enough empty endorsements make the commit one for the empty block, because the source stops counting in map order.
- VBFT's `endorseFailed`, `getCommitConsensus`, the signatures added to a sealed block and the history loaded at start.
- Points.SomeAccepted: speaks of all numbers below the prime; the source draws primes of the same bit length. A run out of numbers is reported as such.
- The rest of the virtual machine: only the matching loop of CHECKMULTISIG is modelled.
- Networking, wallets, transaction pools, command line, configuration and logging.
