/** How long encodings get: with keys and values of moderate length every node can be stored. */
module TrieSize {
  import opened Words
  import opened Rlp
  import opened TrieEncoding
  import opened TrieShape
  import opened TrieNode

  /** No longer than Go slices get in practice; keys count twice for their nibbles. */
  const MAX_LEN: nat := 0x1000_0000_0000_0000

  /** Keys within the limit, values within it and not empty. */
  ghost predicate Sized(t: Tree) {
    forall key :: Terminated(key) && Get(t, key).Some? ==> |key| <= MAX_LEN && 0 < |Get(t, key).value| <= MAX_LEN
  }

  lemma {:induction false} HeadBound(small: Byte, large: Byte, size: nat)
    requires size < TWO_64
    ensures 1 <= |Head(small, large, size)| <= 9
  {
    Pow256Values();
    BigEndianLength(size, 8);
  }

  lemma {:induction false} StrBound(b: Bytes)
    requires |b| < TWO_64
    ensures |Encode(Str(b))| <= |b| + 9
  {
    HeadBound(0x80, 0xB7, |b|);
  }

  /** A reference takes at most 33 bytes, a value a little more than its length. */
  lemma {:induction false} RefBound(h: Bytes -> Digest, t: Tree)
    requires Slottable(t) && (t.Value? ==> |t.v| <= MAX_LEN)
    ensures |Encode(RefItem(h, t))| <= (if t.Value? then MAX_LEN + 9 else 41)
  {
    match t
    case Nil => StrBound([]);
    case Value(v) => StrBound(v);
    case _ => StrBound(NodeHash(h, t));
  }

  lemma {:induction false} RefsBound(h: Bytes -> Digest, cs: seq<Tree>)
    requires forall i :: 0 <= i < |cs| ==> Slottable(cs[i]) && !cs[i].Value?
    ensures |EncodeAll(RefItems(h, cs))| <= 41 * |cs|
  {
    if cs != [] {
      RefBound(h, cs[0]);
      RefsBound(h, cs[1..]);
    }
  }

  lemma {:induction false} CompactBound(k: Key)
    requires WellFormed(k)
    ensures |Compact(k)| <= |k| + 1
  {
  }

  /** Keys and values of moderate length make every node storable. */
  lemma {:induction false} SizedStorable(h: Bytes -> Digest, t: Tree)
    requires Canon(t) && Sized(t)
    ensures Storable(h, t)
    decreases t
  {
    match t
    case Short(k, c) => ShortStorable(h, t);
    case Full(cs) => FullStorable(h, t);
  }

  lemma {:induction false} ShortStorable(h: Bytes -> Digest, t: Tree)
    requires Canon(t) && Sized(t) && t.Short?
    ensures Storable(h, t)
    decreases t, 0
  {
    var k, c := t.key, t.child;
    KeyWellFormed(k, c);
    var some := SomeKey(t);
    assert Get(t, some).Some? && k <= some && |k| <= MAX_LEN;
    if c.Value? {
      assert Get(t, k).Some? && Get(t, k).value == c.v;
    } else {
      forall key | Terminated(key) && Get(c, key).Some?
        ensures |key| <= MAX_LEN && 0 < |Get(c, key).value| <= MAX_LEN
      {
        JoinKeys(k, key);
        assert (k + key)[|k|..] == key;
        assert Get(t, k + key) == Get(c, key);
      }
      SizedStorable(h, c);
    }
    RefBound(h, c);
    CompactBound(k);
    StrBound(Compact(k));
    EncodePair(Str(Compact(k)), RefItem(h, c));
    HeadBound(0xC0, 0xF7, |EncodeAll([Str(Compact(k)), RefItem(h, c)])|);
  }

  lemma {:induction false} FullStorable(h: Bytes -> Digest, t: Tree)
    requires Canon(t) && Sized(t) && t.Full?
    ensures Storable(h, t)
    decreases t, 0
  {
    var cs := t.children;
    FullSlottable(cs);
    forall i | 0 <= i < 16 && !cs[i].Nil? ensures Storable(h, cs[i]) {
      forall key | Terminated(key) && Get(cs[i], key).Some?
        ensures |key| <= MAX_LEN && 0 < |Get(cs[i], key).value| <= MAX_LEN
      {
        JoinKeys([i], key);
        var whole: Key := [i] + key;
        assert whole[1..] == key;
        assert Get(t, whole) == Get(cs[i], key);
      }
      SizedStorable(h, cs[i]);
    }
    var last: Key := [16];
    assert Terminated(last) && last[1..] == [];
    assert Get(t, last) == Get(cs[16], []);
    FullBound(h, t);
  }

  lemma {:induction false} FullBound(h: Bytes -> Digest, t: Tree)
    requires Canon(t) && t.Full? && (t.children[16].Value? ==> |t.children[16].v| <= MAX_LEN)
    ensures |NodeEnc(h, t)| < TWO_64
  {
    var cs := t.children;
    FullSlottable(cs);
    RefsSplit(h, cs, 16);
    RefsBound(h, cs[..16]);
    RefBound(h, cs[16]);
    EncodeAllSnoc(RefItems(h, cs[..16]), RefItem(h, cs[16]));
    HeadBound(0xC0, 0xF7, |EncodeAll(RefItems(h, cs))|);
  }
}
