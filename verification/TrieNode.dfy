/** trie/node.go and the collapsed form of trie/hasher.go: nodes in memory, what a node is encoded
    as, and the decoder that rebuilds it with its children left as references. */
module TrieNode {
  import opened Words
  import opened Rlp
  import opened TrieEncoding
  import opened TrieShape

  /** The hash cached with a node, and whether the node was changed since. */
  datatype Flag = Flag(hash: Option<Bytes>, dirty: bool)

  datatype Node =
    | NilNode
    | ValueNode(v: Bytes)
    | ShortNode(key: Key, val: Node, flags: Flag)
    | FullNode(children: seq<Node>, flags: Flag)
    | HashNode(h: Bytes)

  // ---------------------------------------------------------------- what a trie is encoded as

  /** What can stand in a slot: nothing, a value, or a canonical trie. */
  predicate Slottable(t: Tree) {
    t.Nil? || t.Value? || Canon(t)
  }

  /** The RLP item of a node: a short node has two elements, a branch seventeen. */
  function NodeItem(h: Bytes -> Digest, t: Tree): Item
    requires Canon(t)
    decreases t, 0
  {
    match t
    case Short(k, c) => KeyWellFormed(k, c); Items([Str(Compact(k)), RefItem(h, c)])
    case Full(cs) => FullSlottable(cs); Items(RefItems(h, cs))
  }

  /** How a parent refers to a child: nothing, the value, the child itself when its encoding is
      short, and else the hash of that encoding. */
  function RefItem(h: Bytes -> Digest, t: Tree): Item
    requires Slottable(t)
    decreases t, 1
  {
    match t
    case Nil => Str([])
    case Value(v) => Str(v)
    case _ =>
      var enc := Encode(NodeItem(h, t));
      if |enc| < 32 then NodeItem(h, t) else Str(h(enc))
  }

  function RefItems(h: Bytes -> Digest, cs: seq<Tree>): (r: seq<Item>)
    requires forall i :: 0 <= i < |cs| ==> Slottable(cs[i])
    ensures |r| == |cs|
    decreases cs
  {
    if cs == [] then [] else [RefItem(h, cs[0])] + RefItems(h, cs[1..])
  }

  lemma {:induction false} KeyWellFormed(k: Key, c: Tree)
    requires Canon(Short(k, c))
    ensures WellFormed(k) && |k| > 0 && (HasTerm(k) <==> Terminated(k)) && Slottable(c)
  {
    Bounded(k, c);
  }

  lemma {:induction false} FullSlottable(cs: seq<Tree>)
    requires Canon(Full(cs))
    ensures |cs| == 17 && forall i :: 0 <= i < |cs| ==> Slottable(cs[i])
  {
  }

  function NodeEnc(h: Bytes -> Digest, t: Tree): Bytes
    requires Canon(t)
  {
    Encode(NodeItem(h, t))
  }

  function NodeHash(h: Bytes -> Digest, t: Tree): Digest
    requires Canon(t)
  {
    h(NodeEnc(h, t))
  }

  /** Referred to by hash. */
  predicate Big(h: Bytes -> Digest, t: Tree)
    requires Canon(t)
  {
    |NodeEnc(h, t)| >= 32
  }

  /** Every encoding fits a Go slice, and no branch holds an empty value. */
  predicate Storable(h: Bytes -> Digest, t: Tree)
    requires Canon(t)
  {
    && |NodeEnc(h, t)| < TWO_64
    && match t
       case Short(k, c) => c.Full? ==> Storable(h, c)
       case Full(_) =>
         && t.children[16] != Value([])
         && forall i :: 0 <= i < 16 && !t.children[i].Nil? ==> Storable(h, t.children[i])
  }

  /** The node a decoder builds: children stay references. */
  function Shallow(h: Bytes -> Digest, t: Tree, hash: Option<Bytes>): Node
    requires Canon(t)
  {
    match t
    case Short(k, c) => KeyWellFormed(k, c); ShortNode(k, RefNode(h, c), Flag(hash, false))
    case Full(cs) => FullSlottable(cs); FullNode(RefNodes(h, cs), Flag(hash, false))
  }

  function RefNode(h: Bytes -> Digest, t: Tree): Node
    requires Slottable(t)
  {
    match t
    case Nil => NilNode
    case Value(v) => ValueNode(v)
    case _ => if Big(h, t) then HashNode(NodeHash(h, t)) else Shallow(h, t, None)
  }

  function RefNodes(h: Bytes -> Digest, cs: seq<Tree>): (r: seq<Node>)
    requires forall i :: 0 <= i < |cs| ==> Slottable(cs[i])
    ensures |r| == |cs|
  {
    if cs == [] then [] else [RefNode(h, cs[0])] + RefNodes(h, cs[1..])
  }

  lemma {:induction false} RefNodesAt(h: Bytes -> Digest, cs: seq<Tree>, i: nat)
    requires (forall i :: 0 <= i < |cs| ==> Slottable(cs[i])) && i < |cs|
    ensures RefNodes(h, cs)[i] == RefNode(h, cs[i])
  {
    if i > 0 { RefNodesAt(h, cs[1..], i - 1); }
  }

  // ---------------------------------------------------------------- decoding

  /** A result, one of the source's errors, or an index panic. */
  datatype Outcome<+T> = Done(value: T) | Failed | Panicked

  function Fail<T>(e: Error): Outcome<T> {
    if e == Panic then Panicked else Failed
  }

  function DecodeNode(hash: Option<Bytes>, buf: Bytes): Outcome<Node>
    decreases |buf|, 1
  {
    if |buf| == 0 then Failed
    else
      var p := SplitList(buf);
      if p.Err? then Fail(p.error)
      else
        var c := Count(p.value.content);
        if c == Ok(2) then DecodeShort(hash, p.value.content)
        else if c == Ok(17) then DecodeFull(hash, p.value.content)
        else if c.Err? then Fail(c.error)
        else Failed
  }

  function DecodeShort(hash: Option<Bytes>, els: Bytes): Outcome<Node>
    decreases |els|, 3
  {
    var p := SplitString(els);
    if p.Err? then Fail(p.error)
    else if |p.value.content| == 0 then Panicked
    else
      var key := CompactToHex(p.value.content);
      if HasTerm(key) then
        var q := SplitString(p.value.rest);
        if q.Err? then Fail(q.error) else Done(ShortNode(key, ValueNode(q.value.content), Flag(hash, false)))
      else
        var r := DecodeRef(p.value.rest);
        if r.Done? then Done(ShortNode(key, r.value.0, Flag(hash, false)))
        else if r.Failed? then Failed else Panicked
  }

  function DecodeFull(hash: Option<Bytes>, els: Bytes): Outcome<Node>
    decreases |els|, 5
  {
    var r := DecodeRefs(els, 16);
    if r.Failed? then Failed
    else if r.Panicked? then Panicked
    else
      var v := SplitString(r.value.1);
      if v.Err? then Fail(v.error)
      else
        var last := if |v.value.content| > 0 then ValueNode(v.value.content) else NilNode;
        Done(FullNode(r.value.0 + [last], Flag(hash, false)))
  }

  /** The first n children of a branch, and what follows them. */
  function DecodeRefs(els: Bytes, n: nat): Outcome<(seq<Node>, Bytes)>
    decreases |els|, 4, n
  {
    if n == 0 then Done(([], els))
    else
      var r := DecodeRef(els);
      if r.Failed? then Failed
      else if r.Panicked? then Panicked
      else
        var rest := DecodeRefs(r.value.1, n - 1);
        if rest.Done? then Done(([r.value.0] + rest.value.0, rest.value.1)) else rest
  }

  function DecodeRef(buf: Bytes): (r: Outcome<(Node, Bytes)>)
    ensures r.Done? ==> |r.value.1| < |buf|
    decreases |buf|, 2
  {
    var p := Split(buf);
    if p.Err? then Fail(p.error)
    else
      var Piece(kind, val, rest) := p.value;
      if kind == List then
        if |buf| - |rest| > UINT256_SIZE then Failed
        else
          var n := DecodeNode(None, buf);
          if n.Done? then Done((n.value, rest)) else if n.Failed? then Failed else Panicked
      else if kind == String && |val| == 0 then Done((NilNode, rest))
      else if kind == String && |val| == 32 then Done((HashNode(val), rest))
      else Failed
  }

  /** The loop of decodeFull over the sixteen children. */
  method FillChildren(els0: Bytes) returns (r: Outcome<(seq<Node>, Bytes)>)
    ensures r == DecodeRefs(els0, 16)
  {
    var children: seq<Node>, els := [], els0;
    ghost var all := DecodeRefs(els0, 16);
    assert all.Done? ==> [] + all.value.0 == all.value.0;
    for i := 0 to 16
      invariant |children| == i
      invariant var rest := DecodeRefs(els, 16 - i);
                DecodeRefs(els0, 16) == if rest.Done? then Done((children + rest.value.0, rest.value.1)) else rest
    {
      ghost var before, tail := children, DecodeRefs(els, 16 - i);
      var c := DecodeRef(els);
      if c.Failed? { return Failed; }
      if c.Panicked? { return Panicked; }
      children := children + [c.value.0];
      els := c.value.1;
      ghost var rest := DecodeRefs(els, 15 - i);
      if rest.Done? { Assoc(before, [c.value.0], rest.value.0); }
    }
    assert children + [] == children;
    r := Done((children, els));
  }

  // ---------------------------------------------------------------- decoding undoes encoding

  /** A reference is read back as itself, whatever follows. */
  lemma {:induction false} DecodeRefOf(h: Bytes -> Digest, t: Tree, rest: Bytes)
    requires t.Nil? || (Canon(t) && Storable(h, t))
    ensures DecodeRef(Encode(RefItem(h, t)) + rest) == Done((RefNode(h, t), rest))
    decreases t, 2
  {
    hide NodeItem, Storable, Canon, Encode, Split, DecodeNode, Shallow, NodeEnc;
    if t.Nil? {
      SplitEncode(Str([]), rest);
    } else if Big(h, t) {
      DecodeHashRef(h, t, rest);
    } else {
      DecodeNodeOf(h, t, None, rest);
      DecodeEmbedded(h, t, rest);
    }
  }

  lemma {:induction false} NodeKinds(t: Tree)
    requires Canon(t)
    ensures t.Short? || t.Full?
  {
  }

  lemma {:induction false} DecodeHashRef(h: Bytes -> Digest, t: Tree, rest: Bytes)
    requires Canon(t) && Big(h, t)
    ensures DecodeRef(Encode(RefItem(h, t)) + rest) == Done((RefNode(h, t), rest))
  {
    hide NodeItem, Canon, Encode, Split, DecodeNode, Shallow;
    NodeKinds(t);
    SplitEncode(Str(NodeHash(h, t)), rest);
  }

  lemma {:induction false} DecodeEmbedded(h: Bytes -> Digest, t: Tree, rest: Bytes)
    requires Canon(t) && Storable(h, t) && !Big(h, t) &&
             DecodeNode(None, NodeEnc(h, t) + rest) == Done(Shallow(h, t, None))
    ensures DecodeRef(Encode(RefItem(h, t)) + rest) == Done((RefNode(h, t), rest))
  {
    hide NodeItem, Storable, Canon, Encode, Split, DecodeNode, Shallow;
    NodeKinds(t);
    StorableSize(h, t);
    NodeItemIsList(h, t);
    ContentFits(NodeItem(h, t));
    SplitEncode(NodeItem(h, t), rest);
  }

  lemma {:induction false} NodeItemIsList(h: Bytes -> Digest, t: Tree)
    requires Canon(t)
    ensures NodeItem(h, t).Items? && |NodeItem(h, t).items| == (if t.Short? then 2 else 17)
  {
  }

  lemma {:induction false} StorableSize(h: Bytes -> Digest, t: Tree)
    requires Canon(t) && Storable(h, t)
    ensures |NodeEnc(h, t)| < TWO_64
  {
  }

  /** decodeNode rebuilds the node from its encoding, whatever follows. */
  lemma {:induction false} DecodeNodeOf(h: Bytes -> Digest, t: Tree, hash: Option<Bytes>, rest: Bytes)
    requires Canon(t) && Storable(h, t)
    ensures DecodeNode(hash, NodeEnc(h, t) + rest) == Done(Shallow(h, t, hash))
    decreases t, 1
  {
    var item := NodeItem(h, t);
    NodeItemIsList(h, t);
    StorableSize(h, t);
    if t.Short? {
      DecodeShortOf(h, t, hash);
    } else {
      DecodeFullOf(h, t, hash);
      assert RefNodes(h, t.children)[..16] + [RefNodes(h, t.children)[16]] == RefNodes(h, t.children);
      RefNodesAt(h, t.children, 16);
    }
    hide Canon, NodeItem, Storable, Shallow, DecodeShort, DecodeFull;
    ContentFits(item);
    SplitEncode(item, rest);
    CountEncodeAll(item.items);
  }

  lemma {:induction false} DecodeShortOf(h: Bytes -> Digest, t: Tree, hash: Option<Bytes>)
    requires Canon(t) && t.Short? && Storable(h, t)
    ensures DecodeShort(hash, EncodeAll(NodeItem(h, t).items)) == Done(Shallow(h, t, hash))
    decreases t, 0
  {
    hide Canon, Storable, Encode, Split, Compact, CompactToHex, DecodeRef, DecodeShort;
    KeyWellFormed(t.key, t.child);
    ShortKinds(t.key, t.child);
    var ck, ref := Str(Compact(t.key)), RefItem(h, t.child);
    EncodePair(ck, ref);
    StorableSize(h, t);
    PartsFit(h, t);
    if t.child.Value? {
      DecodeValueShort(hash, t.key, t.child.v);
    } else {
      StorableChild(h, t);
      DecodeRefOf(h, t.child, []);
      assert Encode(ref) + [] == Encode(ref);
      DecodeRefShort(hash, t.key, Encode(ref), RefNode(h, t.child));
    }
  }

  lemma {:induction false} ShortKinds(k: Key, c: Tree)
    requires Canon(Short(k, c))
    ensures if HasTerm(k) then c.Value? else c.Full? && Canon(c)
  {
    Bounded(k, c);
  }

  lemma {:induction false} StorableChild(h: Bytes -> Digest, t: Tree)
    requires Canon(t) && t.Short? && t.child.Full? && Canon(t.child) && Storable(h, t)
    ensures Storable(h, t.child)
  {
  }

  lemma {:induction false} PartsFit(h: Bytes -> Digest, t: Tree)
    requires Canon(t) && t.Short? && |NodeEnc(h, t)| < TWO_64
    ensures Slottable(t.child) && WellFormed(t.key)
    ensures |Compact(t.key)| < TWO_64 && (t.child.Value? ==> |t.child.v| < TWO_64)
  {
    hide Canon, Compact;
    KeyWellFormed(t.key, t.child);
    EncodePair(Str(Compact(t.key)), RefItem(h, t.child));
    ContentFits(NodeItem(h, t));
    ContentFits(Str(Compact(t.key)));
    ContentFits(RefItem(h, t.child));
  }

  lemma {:induction false} DecodeValueShort(hash: Option<Bytes>, key: Key, v: Bytes)
    requires WellFormed(key) && HasTerm(key) && |Compact(key)| < TWO_64 && |v| < TWO_64
    ensures DecodeShort(hash, Encode(Str(Compact(key))) + Encode(Str(v))) ==
            Done(ShortNode(key, ValueNode(v), Flag(hash, false)))
  {
    hide Encode, Split, Compact, CompactToHex, DecodeRef;
    SplitEncode(Str(Compact(key)), Encode(Str(v)));
    SplitEncode(Str(v), []);
    assert Encode(Str(v)) + [] == Encode(Str(v));
    CompactRoundTrip(key);
  }

  lemma {:induction false} DecodeRefShort(hash: Option<Bytes>, key: Key, buf: Bytes, n: Node)
    requires WellFormed(key) && !HasTerm(key) && |Compact(key)| < TWO_64 && DecodeRef(buf) == Done((n, []))
    ensures DecodeShort(hash, Encode(Str(Compact(key))) + buf) == Done(ShortNode(key, n, Flag(hash, false)))
  {
    hide Encode, Split, Compact, CompactToHex, DecodeRef;
    SplitEncode(Str(Compact(key)), buf);
    CompactRoundTrip(key);
  }

  lemma {:induction false} EncodePair(a: Item, b: Item)
    ensures EncodeAll([a, b]) == Encode(a) + Encode(b)
  {
    assert [a, b][1..] == [b] && [b][1..] == [];
    assert EncodeAll([b]) == Encode(b) + EncodeAll([]);
    assert Encode(b) + [] == Encode(b);
  }

  /** The sixteen children, then the value slot. */
  lemma {:induction false} DecodeRefsOf(h: Bytes -> Digest, cs: seq<Tree>, last: Item)
    requires forall i :: 0 <= i < |cs| ==> cs[i].Nil? || (Canon(cs[i]) && Storable(h, cs[i]))
    ensures DecodeRefs(EncodeAll(RefItems(h, cs) + [last]), |cs|) == Done((RefNodes(h, cs), EncodeAll([last])))
    decreases cs, 3
  {
    hide Canon, Storable, RefItem, RefNode, DecodeRef;
    if cs == [] {
      assert RefItems(h, cs) + [last] == [last];
    } else {
      var items := RefItems(h, cs) + [last];
      assert items[0] == RefItem(h, cs[0]) && items[1..] == RefItems(h, cs[1..]) + [last];
      DecodeRefOf(h, cs[0], EncodeAll(items[1..]));
      DecodeRefsOf(h, cs[1..], last);
    }
  }

  /** A branch comes back whole except for its value slot, where an empty value reads as none. */
  lemma {:induction false} DecodeFullOf(h: Bytes -> Digest, t: Tree, hash: Option<Bytes>)
    requires Canon(t) && t.Full? && |NodeEnc(h, t)| < TWO_64
    requires forall i :: 0 <= i < 16 && !t.children[i].Nil? ==> Storable(h, t.children[i])
    ensures |t.children| == 17 && forall i :: 0 <= i < |t.children| ==> Slottable(t.children[i])
    ensures DecodeFull(hash, EncodeAll(NodeItem(h, t).items)) ==
            Done(FullNode(RefNodes(h, t.children)[..16] +
                          [if t.children[16] == Value([]) then NilNode else RefNode(h, t.children[16])],
                          Flag(hash, false)))
    decreases t, 0
  {
    var cs := t.children;
    FullSlottable(cs);
    var front, last := cs[..16], RefItem(h, cs[16]);
    DecodeRefsOf(h, front, last);
    RefsSplit(h, cs, 16);
    EncodeSingle(last);
    LastFits(h, t);
    SplitEncode(last, []);
  }

  lemma {:induction false} EncodeSingle(a: Item)
    ensures EncodeAll([a]) == Encode(a) + []
  {
    assert [a][1..] == [];
    assert EncodeAll([]) == [];
  }

  lemma {:induction false} RefsSplit(h: Bytes -> Digest, cs: seq<Tree>, n: nat)
    requires (forall i :: 0 <= i < |cs| ==> Slottable(cs[i])) && n + 1 == |cs|
    ensures RefItems(h, cs) == RefItems(h, cs[..n]) + [RefItem(h, cs[n])]
    ensures RefNodes(h, cs)[..n] == RefNodes(h, cs[..n])
    decreases n
  {
    hide Canon, RefItem, RefNode;
    if n > 0 {
      RefsSplit(h, cs[1..], n - 1);
      assert cs[1..][..n - 1] == cs[..n][1..];
    } else {
      assert cs[1..] == [];
    }
  }

  /** The last element of an encoding is no longer than the whole. */
  lemma {:induction false} LastFits(h: Bytes -> Digest, t: Tree)
    requires Canon(t) && t.Full? && |NodeEnc(h, t)| < TWO_64
    ensures Slottable(t.children[16]) && |ContentOf(RefItem(h, t.children[16]))| < TWO_64
  {
    var cs := t.children;
    FullSlottable(cs);
    RefsSplit(h, cs, 16);
    EncodeAllSnoc(RefItems(h, cs[..16]), RefItem(h, cs[16]));
    ContentFits(RefItem(h, cs[16]));
    ContentFits(NodeItem(h, t));
  }

  lemma {:induction false} EncodeAllSnoc(a: seq<Item>, last: Item)
    ensures EncodeAll(a + [last]) == EncodeAll(a) + Encode(last)
  {
    if a == [] {
      assert a + [last] == [last];
      EncodeSingle(last);
    } else {
      EncodeAllSnoc(a[1..], last);
      assert (a + [last])[1..] == a[1..] + [last];
      Assoc(Encode(a[0]), EncodeAll(a[1..]), Encode(last));
    }
  }

  /** Decoding a branch undoes its encoding exactly when its value slot does not hold an empty
      value: that value is read back as absent. */
  lemma {:induction false} FullRoundTripExact(h: Bytes -> Digest, t: Tree, hash: Option<Bytes>)
    requires Canon(t) && t.Full? && |NodeEnc(h, t)| < TWO_64
    requires forall i :: 0 <= i < 16 && !t.children[i].Nil? ==> Storable(h, t.children[i])
    ensures DecodeNode(hash, NodeEnc(h, t)) == Done(Shallow(h, t, hash)) <==> t.children[16] != Value([])
  {
    var item := NodeItem(h, t);
    NodeItemIsList(h, t);
    DecodeFullOf(h, t, hash);
    var all := RefNodes(h, t.children);
    RefNodesAt(h, t.children, 16);
    assert all[..16] + [all[16]] == all;
    assert t.children[16] == Value([]) ==> (all[..16] + [NilNode])[16] != all[16];
    hide Canon, NodeItem, Storable, RefNodes, RefNode, DecodeFull;
    ContentFits(item);
    SplitEncode(item, []);
    assert Encode(item) + [] == Encode(item);
    CountEncodeAll(item.items);
  }
}
