/** trie/node.go: exactly which byte strings the decoder reads, and which make it panic instead of
    returning an error. */
module TriePanics {
  import opened Words
  import opened Rlp
  import opened TrieEncoding
  import opened TrieNode

  // ---------------------------------------------------------------- which strings are nodes

  /** A pair of a key and a value or reference, or sixteen references and a value. */
  predicate ReadableList(els: Bytes)
    decreases |els|, 3
  {
    (Count(els) == Ok(2) && ReadablePair(els)) || (Count(els) == Ok(17) && ReadableChildren(els, 16))
  }

  predicate ReadablePair(els: Bytes)
    decreases |els|, 2
  {
    SplitString(els).Ok? &&
    var p := SplitString(els).value;
    && p.content != []
    && if HasTerm(CompactToHex(p.content)) then SplitString(p.rest).Ok? else ReadableRef(p.rest)
  }

  predicate ReadableChildren(els: Bytes, n: nat)
    decreases |els|, 2, n
  {
    if n == 0 then SplitString(els).Ok?
    else ReadableRef(els) && ReadableChildren(Split(els).value.rest, n - 1)
  }

  /** An empty string, a hash, or an embedded list of at most 32 bytes. */
  predicate ReadableRef(buf: Bytes)
    ensures ReadableRef(buf) ==> Split(buf).Ok?
    decreases |buf|, 1, 1
  {
    var p := Split(buf);
    p.Ok? &&
    if p.value.kind == List then |buf| - |p.value.rest| <= UINT256_SIZE && ReadableList(p.value.content)
    else p.value.kind == String && |p.value.content| in {0, 32}
  }

  // ---------------------------------------------------------------- which strings panic

  /** A list that the decoder cannot take: whole values and then a lone 0x81; a pair with an empty
      key; or a child it reads that is such a list. */
  predicate Poisoned(buf: Bytes)
    decreases |buf|, 1
  {
    SplitList(buf).Ok? && PoisonedList(SplitList(buf).value.content)
  }

  predicate PoisonedList(els: Bytes)
    decreases |els|, 3
  {
    || EndsLone(els)
    || (Count(els) == Ok(2) && PoisonedPair(els))
    || (Count(els) == Ok(17) && PoisonedChildren(els, 16))
  }

  predicate PoisonedPair(els: Bytes)
    decreases |els|, 2
  {
    SplitString(els).Ok? &&
    var p := SplitString(els).value;
    p.content == [] || (!HasTerm(CompactToHex(p.content)) && PoisonedRef(p.rest))
  }

  /** One of the next n children, with only readable ones before it. */
  predicate PoisonedChildren(els: Bytes, n: nat)
    decreases |els|, 2, n
  {
    n > 0 &&
    (PoisonedRef(els) || (ReadableRef(els) && PoisonedChildren(Split(els).value.rest, n - 1)))
  }

  /** An embedded list is read where it is short enough to be embedded. */
  predicate PoisonedRef(buf: Bytes)
    decreases |buf|, 1, 1
  {
    var p := Split(buf);
    p.Ok? && p.value.kind == List && |buf| - |p.value.rest| <= UINT256_SIZE && PoisonedList(p.value.content)
  }

  // ---------------------------------------------------------------- whole values

  lemma {:induction false} SplitCounts(b: Bytes, n: nat)
    requires Count(b) == Ok(n) && n > 0
    ensures Split(b).Ok? && Count(Split(b).value.rest) == Ok(n - 1)
  {
  }

  lemma {:induction false} NotLone(b: Bytes)
    requires Count(b).Ok?
    ensures Split(b) != Err(Panic)
  {
    SplitPanicExact(b);
    CountLone();
  }

  /** A reference is followed by what Split leaves. */
  lemma {:induction false} RefRest(buf: Bytes)
    requires DecodeRef(buf).Done?
    ensures Split(buf).Ok? && DecodeRef(buf).value.1 == Split(buf).value.rest
  {
    hide Split, DecodeNode;
  }

  // ---------------------------------------------------------------- the decoder

  lemma {:induction false} NodeReads(hash: Option<Bytes>, buf: Bytes)
    ensures DecodeNode(hash, buf).Done? <==> SplitList(buf).Ok? && ReadableList(SplitList(buf).value.content)
    decreases |buf|, 1
  {
    hide Split, Count, DecodeShort, DecodeFull, ReadablePair, ReadableChildren;
    if SplitList(buf).Ok? {
      var els := SplitList(buf).value.content;
      ListParts(buf);
      if Count(els) == Ok(2) { PairReads(hash, els); }
      if Count(els) == Ok(17) { FullReads(hash, els); }
    }
    NoBytes();
  }

  lemma {:induction false} NoBytes()
    ensures SplitList([]).Err?
  {
  }

  lemma {:induction false} PairReads(hash: Option<Bytes>, els: Bytes)
    ensures DecodeShort(hash, els).Done? <==> ReadablePair(els)
    decreases |els|, 2
  {
    hide Split, CompactToHex, DecodeRef, ReadableRef;
    if SplitString(els).Ok? {
      SplitShrinks(els);
      RefReads(Split(els).value.rest);
    }
  }

  lemma {:induction false} FullReads(hash: Option<Bytes>, els: Bytes)
    ensures DecodeFull(hash, els).Done? <==> ReadableChildren(els, 16)
    decreases |els|, 4
  {
    hide Split, DecodeRefs, ReadableChildren;
    ChildrenRead(els, 16);
  }

  lemma {:induction false} ChildrenRead(els: Bytes, n: nat)
    ensures ReadableChildren(els, n) <==> DecodeRefs(els, n).Done? && SplitString(DecodeRefs(els, n).value.1).Ok?
    decreases |els|, 3, n
  {
    hide Split, DecodeRef, ReadableRef;
    if n > 0 {
      RefReads(els);
      if DecodeRef(els).Done? {
        RefRest(els);
        ChildrenRead(DecodeRef(els).value.1, n - 1);
      }
    }
  }

  lemma {:induction false} RefReads(buf: Bytes)
    ensures DecodeRef(buf).Done? <==> ReadableRef(buf)
    decreases |buf|, 2
  {
    hide Split, ReadableList, DecodeNode;
    if Split(buf).Ok? && Split(buf).value.kind == List {
      SplitShrinks(buf);
      NodeReads(None, buf);
    }
  }

  lemma {:induction false} NodePanics(hash: Option<Bytes>, buf: Bytes)
    ensures DecodeNode(hash, buf).Panicked? <==> buf == [0x81] || Poisoned(buf)
    decreases |buf|, 1
  {
    hide Split, Count, DecodeShort, DecodeFull, PoisonedList, EndsLone;
    SplitPanicExact(buf);
    if SplitList(buf).Ok? {
      var els := SplitList(buf).value.content;
      ListParts(buf);
      CountPanicExact(els);
      ListPanics(hash, els);
    }
  }

  lemma {:induction false} ListParts(buf: Bytes)
    requires SplitList(buf).Ok?
    ensures |SplitList(buf).value.content| < |buf|
  {
  }

  lemma {:induction false} ListPanics(hash: Option<Bytes>, els: Bytes)
    ensures Count(els) == Ok(2) ==> (DecodeShort(hash, els).Panicked? <==> PoisonedList(els))
    ensures Count(els) == Ok(17) ==> (DecodeFull(hash, els).Panicked? <==> PoisonedList(els))
    ensures Count(els) != Ok(2) && Count(els) != Ok(17) ==> (PoisonedList(els) <==> EndsLone(els))
    decreases |els|, 3
  {
    hide Count, DecodeShort, DecodeFull, PoisonedPair, PoisonedChildren, EndsLone;
    CountPanicExact(els);
    if Count(els) == Ok(2) { PairPanics(hash, els); }
    if Count(els) == Ok(17) {
      ChildrenPanic(els, 16, 17);
      FullPanics(hash, els);
    }
  }

  lemma {:induction false} PairPanics(hash: Option<Bytes>, els: Bytes)
    requires Count(els) == Ok(2)
    ensures DecodeShort(hash, els).Panicked? <==> PoisonedPair(els)
    decreases |els|, 2
  {
    hide Split, Count, CompactToHex, DecodeRef, PoisonedRef;
    SplitCounts(els, 2);
    var rest := Split(els).value.rest;
    NotLone(els);
    NotLone(rest);
    if SplitString(els).Ok? {
      SplitShrinks(els);
      RefPanics(rest);
    }
  }

  lemma {:induction false} SplitShrinks(b: Bytes)
    requires Split(b).Ok?
    ensures |Split(b).value.rest| < |b| && (Split(b).value.kind == List ==> |Split(b).value.content| < |b|)
  {
  }

  lemma {:induction false} RefPanics(buf: Bytes)
    requires Count(buf).Ok?
    ensures DecodeRef(buf).Panicked? <==> PoisonedRef(buf)
    decreases |buf|, 2
  {
    hide Split, Count, PoisonedList, DecodeNode;
    NotLone(buf);
    if Split(buf).Ok? && Split(buf).value.kind == List {
      SplitShrinks(buf);
      NodePanics(None, buf);
      assert buf != [0x81] by { CountLone(); }
    }
  }

  lemma {:induction false} ChildrenPanic(els: Bytes, n: nat, m: nat)
    requires Count(els) == Ok(m) && n < m
    ensures DecodeRefs(els, n).Panicked? <==> PoisonedChildren(els, n)
    ensures DecodeRefs(els, n).Done? ==> Count(DecodeRefs(els, n).value.1) == Ok(m - n)
    decreases |els|, 3, n
  {
    hide Split, Count, PoisonedRef, ReadableRef, DecodeRef;
    if n > 0 {
      RefPanics(els);
      RefReads(els);
      if DecodeRef(els).Done? {
        RefRest(els);
        SplitCounts(els, m);
        SplitShrinks(els);
        ChildrenPanic(DecodeRef(els).value.1, n - 1, m - 1);
      }
    }
  }

  lemma {:induction false} FullPanics(hash: Option<Bytes>, els: Bytes)
    requires DecodeRefs(els, 16).Done? ==> Count(DecodeRefs(els, 16).value.1) == Ok(1)
    ensures DecodeFull(hash, els).Panicked? <==> DecodeRefs(els, 16).Panicked?
  {
    hide Split, Count, DecodeRefs;
    if DecodeRefs(els, 16).Done? { NotLone(DecodeRefs(els, 16).value.1); }
  }
}
