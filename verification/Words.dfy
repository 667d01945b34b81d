/** Machine words, byte strings and 32-byte digests shared by every other module. */
module Words {

  const TWO_31: int := 0x8000_0000
  const TWO_32: int := 0x1_0000_0000
  const TWO_64: int := 0x1_0000_0000_0000_0000

  type Byte = x: int | 0 <= x < 0x100
  type Uint32 = x: int | 0 <= x < TWO_32
  type Uint64 = x: int | 0 <= x < TWO_64

  type Bytes = seq<Byte>

  const UINT256_SIZE: nat := 32

  /** The source's common.Uint256. */
  type Digest = d: Bytes | |d| == UINT256_SIZE
    witness [0, 0, 0, 0, 0, 0, 0, 0, 0, 0, 0, 0, 0, 0, 0, 0, 0, 0, 0, 0, 0, 0, 0, 0, 0, 0, 0, 0, 0, 0, 0, 0]

  const EMPTY_HASH: Digest :=
    [0, 0, 0, 0, 0, 0, 0, 0, 0, 0, 0, 0, 0, 0, 0, 0, 0, 0, 0, 0, 0, 0, 0, 0, 0, 0, 0, 0, 0, 0, 0, 0]

  /** Two different byte strings with one digest. Since digests are short, some such pair always
      exists; a security statement is worth something only when it names the pair. */
  predicate Collides(sha: Bytes -> Digest, pair: (Bytes, Bytes)) {
    pair.0 != pair.1 && sha(pair.0) == sha(pair.1)
  }

  datatype Option<+T> = None | Some(value: T)

  /** The number of byte strings of length n. */
  function Pow256(n: nat): (p: nat)
    ensures p > 0
  {
    if n == 0 then 1 else 0x100 * Pow256(n - 1)
  }

  lemma {:induction false} Pow256Values()
    ensures Pow256(2) == 0x1_0000 && Pow256(4) == TWO_32 && Pow256(8) == TWO_64
  {
    assert Pow256(4) == 0x100 * Pow256(3);
    assert Pow256(6) == 0x1_0000_0000_0000;
  }

  lemma {:induction false} SubsetSize<T>(a: set<T>, b: set<T>)
    requires a <= b
    ensures |a| <= |b|
    decreases a
  {
    if a != {} {
      var x :| x in a;
      SubsetSize(a - {x}, b - {x});
    }
  }

  lemma {:induction false} Multiple(m: nat, d: nat)
    requires d >= 1
    ensures m * d >= m
  {
  }

  lemma {:induction false} TailSlice<T>(s: seq<T>, off: nat, a: nat, b: nat)
    requires off <= |s| && a <= b <= |s| - off
    ensures s[off..][a..b] == s[off + a..off + b]
  {
  }

  lemma {:induction false} TwoSlices<T>(s: seq<T>, at: nat, end: nat)
    requires at <= end <= |s|
    ensures s[..end] == s[..at] + s[at..end]
  {
  }

  lemma {:induction false} Assoc<T>(a: seq<T>, b: seq<T>, c: seq<T>)
    ensures (a + b) + c == a + (b + c)
  {
  }
}
