/** trie/trie.go without hash references: the shape of the trie, its lookup, insertion and deletion,
    the canonical form they keep, and the map they implement. */
module TrieShape {
  import opened Words
  import opened TrieEncoding

  datatype Tree = Nil | Value(v: Bytes) | Short(key: Key, child: Tree) | Full(children: seq<Tree>)

  /** A leaf's key ends in the terminator, an extension's does not and leads to a branch; a branch
      has at least two children, and values only in its last slot. */
  predicate Canon(t: Tree) {
    match t
    case Nil => false
    case Value(_) => false
    case Short(k, c) => if Terminated(k) then c.Value? else |k| > 0 && Nibbled(k) && c.Full? && Canon(c)
    case Full(_) =>
      && |t.children| == 17
      && (forall i :: 0 <= i < 16 ==> t.children[i].Nil? || Canon(t.children[i]))
      && (t.children[16].Nil? || t.children[16].Value?)
      && TwoLive(t.children)
  }

  predicate TwoLive(cs: seq<Tree>) {
    exists i, j :: 0 <= i < j < |cs| && !cs[i].Nil? && !cs[j].Nil?
  }

  predicate CanonOrNil(t: Tree) {
    t.Nil? || Canon(t)
  }

  /** The subtrees met when the given key is left: a value slot when none is, else a canonical trie. */
  predicate Fits(t: Tree, key: Key) {
    if key == [] then t.Nil? || t.Value? else Terminated(key) && CanonOrNil(t)
  }

  // ---------------------------------------------------------------- the operations

  function Get(t: Tree, key: Key): Option<Bytes>
    decreases t
  {
    match t
    case Nil => None
    case Value(v) => Some(v)
    case Short(k, c) => if |k| <= |key| && key[..|k|] == k then Get(c, key[|k|..]) else None
    case Full(cs) => if |key| > 0 && key[0] < |cs| then Get(cs[key[0]], key[1..]) else None
  }

  /** insert(nil, k, t): the subtree itself when no key is left. */
  function Wrap(k: Key, t: Tree): Tree {
    if k == [] then t else Short(k, t)
  }

  /** A branch without children. */
  function NoChildren(): (r: seq<Tree>)
    ensures |r| == 17 && forall i :: 0 <= i < 17 ==> r[i] == Nil
  {
    seq(17, _ => Nil)
  }

  /** The branch of two keys that part at position m. */
  function Fork(k: Key, c: Tree, key: Key, v: Bytes, m: nat): Tree
    requires m < |k| && m < |key| && k[m] < 17 && key[m] < 17
  {
    var one := NoChildren()[k[m] := Wrap(k[m + 1..], c)];
    Wrap(key[..m], Full(one[key[m] := Wrap(key[m + 1..], Value(v))]))
  }

  function Insert(t: Tree, key: Key, v: Bytes): Tree
    requires Fits(t, key)
    decreases t
  {
    if key == [] then Value(v)
    else match t
      case Nil => Short(key, Value(v))
      case Short(k, c) =>
        var m := PrefixLen(key, k);
        if m == |k| then
          FitsBelowShort(k, c, key);
          Short(k, Insert(c, key[m..], v))
        else
          PartsInside(k, c, key);
          Fork(k, c, key, v, m)
      case Full(cs) =>
        FitsBelowFull(cs, key);
        Full(cs[key[0] := Insert(cs[key[0]], key[1..], v)])
  }

  /** The child scan of delete: the only live child, or -1 for none and -2 for several. */
  function OnlyChild(cs: seq<Tree>): (pos: int)
    ensures pos == -1 || pos == -2 || 0 <= pos < |cs|
    ensures pos == -1 <==> forall i :: 0 <= i < |cs| ==> cs[i].Nil?
    ensures pos >= 0 ==> !cs[pos].Nil? && forall i :: 0 <= i < |cs| && i != pos ==> cs[i].Nil?
    ensures pos == -2 <==> TwoLive(cs)
  {
    if |cs| == 0 then -1
    else
      var n := |cs| - 1;
      var p := OnlyChild(cs[..n]);
      if cs[n].Nil? then p else if p == -1 then n else -2
  }

  /** A branch after a deletion: with one child left it becomes a short node. */
  function Collapse(cs: seq<Tree>): Tree {
    var pos := OnlyChild(cs);
    if pos < 0 || pos > 0xFF then Full(cs)
    else if pos != 16 && cs[pos].Short? then Short([pos] + cs[pos].key, cs[pos].child)
    else Short([pos], cs[pos])
  }

  /** An extension over what a deletion left: two short nodes in a row become one. */
  function Merge(k: Key, child: Tree): Tree {
    if child.Short? then Short(k + child.key, child.child) else Short(k, child)
  }

  function Delete(t: Tree, key: Key): Tree
    requires Fits(t, key)
    decreases t
  {
    match t
    case Nil => Nil
    case Value(_) => Nil
    case Short(k, c) =>
      var m := PrefixLen(key, k);
      if m < |k| then t
      else if m == |key| then Nil
      else
        FitsBelowShort(k, c, key);
        Merge(k, Delete(c, key[|k|..]))
    case Full(cs) =>
      FitsBelowFull(cs, key);
      Collapse(cs[key[0] := Delete(cs[key[0]], key[1..])])
  }

  // ---------------------------------------------------------------- going down

  lemma {:induction false} FitsBelowShort(k: Key, c: Tree, key: Key)
    requires Canon(Short(k, c)) && Terminated(key) && PrefixLen(key, k) == |k|
    ensures Fits(c, key[|k|..])
  {
    assert k <= key;
    if Terminated(k) {
      PrefixFree(k, key);
    } else {
      TerminatedTail(key, |k|);
    }
  }

  lemma {:induction false} FitsBelowFull(cs: seq<Tree>, key: Key)
    requires Canon(Full(cs)) && Terminated(key)
    ensures key[0] < 17 && Fits(cs[key[0]], key[1..])
    ensures key[0] == 16 <==> |key| == 1
  {
    if |key| > 1 {
      TerminatedTail(key, 1);
      assert key[0] == key[..1][0];
    }
  }

  /** Two different paths part before either ends. */
  lemma {:induction false} PartsInside(k: Key, c: Tree, key: Key)
    requires Canon(Short(k, c)) && Terminated(key) && PrefixLen(key, k) < |k|
    ensures var m := PrefixLen(key, k);
            m < |key| && k[m] <= 16 && key[m] <= 16 && k[m] != key[m] && Nibbled(key[..m])
  {
    var m := PrefixLen(key, k);
    Bounded(k, c);
    assert forall i :: 0 <= i < m ==> key[..m][i] == k[..m][i];
    assert forall i :: 0 <= i < m ==> key[i] == k[i];
    assert forall i :: 0 <= i < |key| - 1 ==> key[i] == key[..|key| - 1][i];
    TerminatedTail(key, m);
  }

  lemma {:induction false} Bounded(k: Key, c: Tree)
    requires Canon(Short(k, c))
    ensures |k| > 0 && forall i :: 0 <= i < |k| ==> k[i] <= 16
    ensures forall i :: 0 <= i < |k| - 1 ==> k[i] < 16
  {
    if Terminated(k) {
      assert forall i :: 0 <= i < |k| - 1 ==> k[i] == k[..|k| - 1][i];
    }
  }

  // ---------------------------------------------------------------- lookups after a change

  lemma {:induction false} GetWrap(k: Key, t: Tree, key: Key)
    ensures Get(Wrap(k, t), key) == if k <= key then Get(t, key[|k|..]) else None
  {
    if k == [] { assert key[0..] == key; }
  }

  /** A prefix splits where the longer key does. */
  lemma {:induction false} PrefixSplit(k: Key, key: Key, m: nat)
    requires m < |k|
    ensures k <= key <==> k[..m] <= key && m < |key| && key[m] == k[m] && k[m + 1..] <= key[m + 1..]
  {
    if k[..m] <= key && m < |key| && key[m] == k[m] && k[m + 1..] <= key[m + 1..] {
      forall i | 0 <= i < |k| ensures k[i] == key[i] {
        if i < m { assert k[..m][i] == key[i]; }
        if i > m { assert k[m + 1..][i - m - 1] == key[m + 1..][i - m - 1]; }
      }
    }
    if k <= key {
      assert forall i :: 0 <= i < |k| ==> k[i] == key[i];
    }
  }

  lemma {:induction false} ForkGet(k: Key, c: Tree, key: Key, v: Bytes, m: nat, other: Key)
    requires Canon(Short(k, c)) && Terminated(key) && Terminated(other) && m == PrefixLen(key, k) < |k|
    requires m < |key| && k[m] <= 16 && key[m] <= 16 && k[m] != key[m] && Nibbled(key[..m])
    ensures Get(Fork(k, c, key, v, m), other) == if other == key then Some(v) else Get(Short(k, c), other)
  {
    hide Canon, PrefixLen;
    var one := NoChildren()[k[m] := Wrap(k[m + 1..], c)];
    var cs := one[key[m] := Wrap(key[m + 1..], Value(v))];
    GetWrap(key[..m], Full(cs), other);
    PrefixSplit(k, other, m);
    PrefixSplit(key, other, m);
    assert other == key <==> key <= other by { if key <= other { PrefixFree(key, other); } }
    if key[..m] <= other {
      assert forall i :: 0 <= i < m ==> other[i] == key[..m][i];
      assert m < |other|;
      ForkChild(k, c, key, v, m, other);
    }
  }

  lemma {:induction false} ForkChild(k: Key, c: Tree, key: Key, v: Bytes, m: nat, other: Key)
    requires m < |k| && m < |key| && m < |other| && k[m] <= 16 && key[m] <= 16 && k[m] != key[m]
    requires k[..m] <= other && key[..m] <= other
    ensures var one := NoChildren()[k[m] := Wrap(k[m + 1..], c)];
            var cs := one[key[m] := Wrap(key[m + 1..], Value(v))];
            Get(Full(cs), other[m..]) ==
            if key <= other then Some(v) else Get(Short(k, c), other)
  {
    var rest := other[m + 1..];
    assert other[m..][0] == other[m] && other[m..][1..] == rest;
    GetWrap(k[m + 1..], c, rest);
    GetWrap(key[m + 1..], Value(v), rest);
    PrefixSplit(k, other, m);
    PrefixSplit(key, other, m);
    if k <= other { assert rest[|k| - m - 1..] == other[|k|..]; }
  }

  /** Lookup after insertion. */
  lemma {:induction false} InsertGet(t: Tree, key: Key, v: Bytes, other: Key)
    requires Fits(t, key) && Fits(t, other) && (key == [] <==> other == [])
    ensures Get(Insert(t, key, v), other) == if other == key then Some(v) else Get(t, other)
    decreases t
  {
    if key != [] {
      match t
      case Nil =>
        if key <= other { PrefixFree(key, other); }
      case Short(k, c) =>
        InsertGetShort(k, c, key, v, other);
      case Full(cs) =>
        FitsBelowFull(cs, key);
        FitsBelowFull(cs, other);
        assert other == key <==> other[0] == key[0] && other[1..] == key[1..] by {
          assert other == [other[0]] + other[1..] && key == [key[0]] + key[1..];
        }
        if other[0] == key[0] { InsertGet(cs[key[0]], key[1..], v, other[1..]); }
    }
  }

  lemma {:induction false} ShortFits(k: Key, c: Tree, key: Key)
    requires Canon(Short(k, c)) && Terminated(key)
    ensures Fits(Short(k, c), key) && key != []
  {}

  lemma {:induction false} TailEmpty(k: Key, key: Key)
    requires Terminated(key) && k <= key
    ensures key[|k|..] == [] <==> Terminated(k)
  {
    if Terminated(k) {
      PrefixFree(k, key);
    } else {
      assert |k| == |key| ==> k == key;
    }
  }

  lemma {:induction false} InsertGetUnder(k: Key, c: Tree, key: Key, v: Bytes, other: Key)
    requires Canon(Short(k, c)) && Terminated(key) && Terminated(other) && k <= key && k <= other
    ensures Fits(c, key[|k|..]) && Fits(c, other[|k|..]) && (key[|k|..] == [] <==> other[|k|..] == [])
    ensures PrefixLen(key, k) == |k| && (other == key <==> other[|k|..] == key[|k|..])
  {
    hide Canon, Fits, Terminated;
    PrefixLenUnique(key, k, |k|);
    PrefixLenUnique(other, k, |k|);
    FitsBelowShort(k, c, key);
    FitsBelowShort(k, c, other);
    TailEmpty(k, key);
    TailEmpty(k, other);
    assert key == k + key[|k|..] && other == k + other[|k|..];
  }

  lemma {:induction false} InsertGetShort(k: Key, c: Tree, key: Key, v: Bytes, other: Key)
    requires Canon(Short(k, c)) && Terminated(key) && Terminated(other)
    ensures Get(Insert(Short(k, c), key, v), other) == if other == key then Some(v) else Get(Short(k, c), other)
    decreases Short(k, c), 0
  {
    hide Fork, Canon, Terminated, Fits;
    ShortFits(k, c, key);
    var m := PrefixLen(key, k);
    if m == |k| {
      FitsBelowShort(k, c, key);
      assert k <= key;
      if k <= other {
        InsertGetUnder(k, c, key, v, other);
        InsertGet(c, key[|k|..], v, other[|k|..]);
      }
    } else {
      PartsInside(k, c, key);
      ForkGet(k, c, key, v, m, other);
    }
  }

  // ---------------------------------------------------------------- the canonical form is kept

  /** What may hang in slot i of a branch, when something does. */
  predicate Slot(i: nat, t: Tree) {
    if i == 16 then t.Value? else Canon(t)
  }

  /** Cutting a canonical short node after one of its nibbles leaves a proper child. */
  lemma {:induction false} WrapFits(k: Key, c: Tree, m: nat)
    requires Canon(Short(k, c)) && m < |k|
    ensures k[m] <= 16 && Slot(k[m], Wrap(k[m + 1..], c))
  {
    Bounded(k, c);
    if Terminated(k) {
      TerminatedTail(k, m + 1);
    } else {
      assert Nibbled(k[m + 1..]);
      assert |k[m + 1..]| > 0 ==> !Terminated(k[m + 1..]);
    }
  }

  lemma {:induction false} ForkCanon(k: Key, c: Tree, key: Key, v: Bytes, m: nat)
    requires Canon(Short(k, c)) && Terminated(key)
    requires m < |k| && m < |key| && k[m] <= 16 && key[m] <= 16 && k[m] != key[m] && Nibbled(key[..m])
    ensures Canon(Fork(k, c, key, v, m))
  {
    ForkBranchCanon(k, c, key, v, m);
    var one := NoChildren()[k[m] := Wrap(k[m + 1..], c)];
    WrapExtension(key[..m], Full(one[key[m] := Wrap(key[m + 1..], Value(v))]));
  }

  lemma {:induction false} ForkBranchCanon(k: Key, c: Tree, key: Key, v: Bytes, m: nat)
    requires Canon(Short(k, c)) && Terminated(key)
    requires m < |k| && m < |key| && k[m] <= 16 && key[m] <= 16 && k[m] != key[m]
    ensures var one := NoChildren()[k[m] := Wrap(k[m + 1..], c)];
            Canon(Full(one[key[m] := Wrap(key[m + 1..], Value(v))]))
  {
    WrapFits(k, c, m);
    WrapFits(key, Value(v), m);
    hide Wrap;
    var one := NoChildren()[k[m] := Wrap(k[m + 1..], c)];
    var cs := one[key[m] := Wrap(key[m + 1..], Value(v))];
    var i, j := if k[m] < key[m] then k[m] else key[m], if k[m] < key[m] then key[m] else k[m];
    assert !cs[i].Nil? && !cs[j].Nil?;
  }

  lemma {:induction false} WrapExtension(k: Key, t: Tree)
    requires Nibbled(k) && t.Full? && Canon(t)
    ensures Canon(Wrap(k, t))
  {
    assert |k| > 0 ==> !Terminated(k);
  }

  lemma {:induction false} InsertCanon(t: Tree, key: Key, v: Bytes)
    requires Fits(t, key)
    ensures key == [] ==> Insert(t, key, v).Value?
    ensures key != [] ==> Canon(Insert(t, key, v)) && (t.Full? ==> Insert(t, key, v).Full?)
    decreases t
  {
    if key != [] {
      match t
      case Nil =>
      case Short(k, c) =>
        if PrefixLen(key, k) == |k| {
          FitsBelowShort(k, c, key);
          InsertCanon(c, key[|k|..], v);
          if Terminated(k) { PrefixFree(k, key); }
        } else {
          PartsInside(k, c, key);
          ForkCanon(k, c, key, v, PrefixLen(key, k));
        }
      case Full(cs) =>
        FitsBelowFull(cs, key);
        InsertCanon(cs[key[0]], key[1..], v);
        KeepsTwo(cs, key[0], Insert(cs[key[0]], key[1..], v));
    }
  }

  lemma {:induction false} KeepsTwo(cs: seq<Tree>, i: nat, t: Tree)
    requires TwoLive(cs) && i < |cs| && !t.Nil?
    ensures TwoLive(cs[i := t])
  {
    var a, b :| 0 <= a < b < |cs| && !cs[a].Nil? && !cs[b].Nil?;
    var ds := cs[i := t];
    assert !ds[a].Nil? && !ds[b].Nil?;
  }

  lemma {:induction false} KeepsOne(cs: seq<Tree>, i: nat, t: Tree)
    requires TwoLive(cs) && i < |cs|
    ensures OnlyChild(cs[i := t]) != -1
  {
    var a, b :| 0 <= a < b < |cs| && !cs[a].Nil? && !cs[b].Nil?;
    var ds := cs[i := t];
    var other := if a == i then b else a;
    assert !ds[other].Nil?;
  }

  /** The slots of a branch that may have lost a child. */
  predicate Slots(cs: seq<Tree>) {
    |cs| == 17 && forall i :: 0 <= i < 17 ==> cs[i].Nil? || Slot(i, cs[i])
  }

  lemma {:induction false} CollapseCanon(cs: seq<Tree>)
    requires Slots(cs) && OnlyChild(cs) != -1
    ensures Canon(Collapse(cs))
  {
    var pos := OnlyChild(cs);
    if pos >= 0 {
      if pos == 16 {
        assert Terminated([16]);
      } else if cs[pos].Short? {
        PrependCanon(pos, cs[pos].key, cs[pos].child);
      } else {
        assert cs[pos].Full? && !Terminated([pos]);
      }
    }
  }

  lemma {:induction false} PrependCanon(pos: nat, k: Key, c: Tree)
    requires pos < 16 && Canon(Short(k, c))
    ensures Canon(Short([pos] + k, c))
  {
    var all: Key := [pos] + k;
    JoinKeys([pos], k);
  }

  /** Nibbles in front of a key keep its kind. */
  lemma {:induction false} JoinKeys(a: Key, b: Key)
    requires Nibbled(a) && |b| > 0
    ensures Terminated(b) ==> Terminated(a + b)
    ensures Nibbled(b) ==> Nibbled(a + b) && !Terminated(a + b)
  {
    var n := |b| - 1;
    assert (a + b)[..|a| + n] == a + b[..n];
  }

  lemma {:induction false} DeleteCanon(t: Tree, key: Key)
    requires Fits(t, key)
    ensures key == [] ==> Delete(t, key).Nil?
    ensures key != [] ==> CanonOrNil(Delete(t, key)) && (t.Full? ==> Canon(Delete(t, key)))
    decreases t
  {
    match t
    case Nil =>
    case Value(_) =>
    case Short(k, c) =>
      var m := PrefixLen(key, k);
      if m == |k| && m < |key| {
        FitsBelowShort(k, c, key);
        DeleteCanon(c, key[|k|..]);
        if Terminated(k) { PrefixFree(k, key); }
        var child := Delete(c, key[|k|..]);
        if child.Short? {
          Bounded(child.key, child.child);
          JoinKeys(k, child.key);
        }
      }
    case Full(cs) =>
      FitsBelowFull(cs, key);
      var gone := Delete(cs[key[0]], key[1..]);
      DeleteCanon(cs[key[0]], key[1..]);
      KeepsOne(cs, key[0], gone);
      CollapseCanon(cs[key[0] := gone]);
  }

  // ---------------------------------------------------------------- lookups after a deletion

  lemma {:induction false} CollapseGet(cs: seq<Tree>, other: Key)
    requires |cs| == 17 && |other| > 0 && other[0] <= 16
    ensures Get(Collapse(cs), other) == Get(Full(cs), other)
  {
    var pos := OnlyChild(cs);
    if pos >= 0 {
      if pos != 16 && cs[pos].Short? {
        var k := cs[pos].key;
        JoinedPrefix([pos], k, other);
        assert [pos] <= other <==> other[0] == pos;
      } else {
        assert [pos] <= other <==> other[0] == pos;
      }
    }
  }

  lemma {:induction false} JoinedPrefix(a: Key, b: Key, key: Key)
    ensures a + b <= key <==> a <= key && b <= key[|a|..]
    ensures a + b <= key ==> key[|a + b|..] == key[|a|..][|b|..]
  {
    if a <= key && b <= key[|a|..] {
      assert key == a + key[|a|..] && key[|a|..] == b + key[|a|..][|b|..];
    }
    if a + b <= key {
      assert key[..|a + b|] == a + b;
      assert key[..|a|] == a && key[|a|..][..|b|] == b;
    }
  }

  /** Lookup after deletion. */
  lemma {:induction false} DeleteGet(t: Tree, key: Key, other: Key)
    requires Fits(t, key) && Fits(t, other) && (key == [] <==> other == [])
    ensures Get(Delete(t, key), other) == if other == key then None else Get(t, other)
    decreases t
  {
    match t
    case Nil =>
    case Value(_) =>
    case Short(k, c) =>
      DeleteGetShort(k, c, key, other);
    case Full(cs) =>
      FitsBelowFull(cs, key);
      FitsBelowFull(cs, other);
      CollapseGet(cs[key[0] := Delete(cs[key[0]], key[1..])], other);
      assert other == key <==> other[0] == key[0] && other[1..] == key[1..] by {
        assert other == [other[0]] + other[1..] && key == [key[0]] + key[1..];
      }
      if other[0] == key[0] { DeleteGet(cs[key[0]], key[1..], other[1..]); }
  }

  lemma {:induction false} DeleteGetShort(k: Key, c: Tree, key: Key, other: Key)
    requires Canon(Short(k, c)) && Terminated(key) && Terminated(other)
    ensures Get(Delete(Short(k, c), key), other) == if other == key then None else Get(Short(k, c), other)
    decreases Short(k, c), 1
  {
    var m := PrefixLen(key, k);
    if m < |k| {
      PartsInside(k, c, key);
      PrefixSplit(k, key, m);
    } else if m == |key| {
      assert k == key;
      if k <= other { PrefixFree(k, other); }
    } else {
      DeleteGetBelow(k, c, key, other);
    }
  }

  lemma {:induction false} GetMerge(k: Key, child: Tree, other: Key)
    ensures Get(Merge(k, child), other) == if k <= other then Get(child, other[|k|..]) else None
  {
    if child.Short? { JoinedPrefix(k, child.key, other); }
  }

  lemma {:induction false} DeleteGetBelow(k: Key, c: Tree, key: Key, other: Key)
    requires Canon(Short(k, c)) && Terminated(key) && Terminated(other) && PrefixLen(key, k) == |k| < |key|
    ensures Get(Delete(Short(k, c), key), other) == if other == key then None else Get(Short(k, c), other)
    decreases Short(k, c), 0
  {
    FitsBelowShort(k, c, key);
    GetMerge(k, Delete(c, key[|k|..]), other);
    hide Merge, Canon;
    assert k <= key && key == k + key[|k|..];
    if k <= other {
      PrefixLenUnique(other, k, |k|);
      FitsBelowShort(k, c, other);
      assert other == k + other[|k|..];
      if other[|k|..] == [] { PrefixFree(other, key); }
      DeleteGet(c, key[|k|..], other[|k|..]);
    }
  }

  // ---------------------------------------------------------------- one canonical trie per map

  /** Some key of a canonical trie, and one below a given live child of a branch. */
  ghost function SomeKey(t: Tree): (k: Key)
    requires Canon(t)
    ensures Terminated(k) && Get(t, k).Some?
    decreases t, 1
  {
    match t
    case Short(k, c) =>
      if Terminated(k) then k
      else
        JoinKeys(k, SomeKey(c));
        assert (k + SomeKey(c))[|k|..] == SomeKey(c);
        k + SomeKey(c)
    case Full(cs) =>
      var i, j :| 0 <= i < j < |cs| && !cs[i].Nil? && !cs[j].Nil?;
      KeyVia(cs, i)
  }

  ghost function KeyVia(cs: seq<Tree>, i: nat): (k: Key)
    requires Canon(Full(cs)) && i < 17 && !cs[i].Nil?
    ensures Terminated(k) && k[0] == i && Get(Full(cs), k).Some?
    decreases Full(cs), 0
  {
    if i == 16 then [16]
    else
      JoinKeys([i], SomeKey(cs[i]));
      [i] + SomeKey(cs[i])
  }

  /** The same answers to every terminated key. */
  ghost predicate Same(a: Tree, b: Tree) {
    forall k :: Terminated(k) ==> Get(a, k) == Get(b, k)
  }

  /** A canonical trie is determined by its lookups. */
  lemma {:induction false} CanonUnique(a: Tree, b: Tree)
    requires CanonOrNil(a) && CanonOrNil(b) && Same(a, b)
    ensures a == b
    decreases a
  {
    if a.Nil? {
      if Canon(b) { CanonNotEmpty(b); }
    } else if b.Nil? {
      CanonNotEmpty(a);
    } else if a.Short? && b.Short? {
      ShortUnique(a, b);
    } else if a.Short? {
      ShortNotFull(a, b);
    } else if b.Short? {
      ShortNotFull(b, a);
    } else {
      FullUnique(a, b);
    }
  }

  lemma {:induction false} CanonNotEmpty(t: Tree)
    requires Canon(t)
    ensures !Same(t, Nil) && !Same(Nil, t)
  {
    var k := SomeKey(t);
    assert Get(t, k) != Get(Nil, k);
  }

  /** Keys below different children of a branch do not share a first nibble, those of a short
      node do. */
  lemma {:induction false} ShortNotFull(a: Tree, b: Tree)
    requires a.Short? && b.Full? && Canon(a) && Canon(b)
    ensures !Same(a, b)
  {
    Bounded(a.key, a.child);
    var cs := b.children;
    var i, j :| 0 <= i < j < |cs| && !cs[i].Nil? && !cs[j].Nil?;
    var k := KeyVia(cs, if a.key[0] == i then j else i);
    assert !(a.key <= k);
    assert Get(a, k) != Get(b, k);
  }

  lemma {:induction false} ShortUnique(a: Tree, b: Tree)
    requires a.Short? && b.Short? && Canon(a) && Canon(b) && Same(a, b)
    ensures a == b
    decreases a, 0
  {
    var x := SomeKey(a);
    assert Get(b, x).Some?;
    assert a.key <= x && b.key <= x;
    if |a.key| < |b.key| {
      assert a.key == b.key[..|a.key|];
      NoLongerKey(a, b);
    } else if |b.key| < |a.key| {
      assert b.key == a.key[..|b.key|];
      NoLongerKey(b, a);
    } else {
      assert a.key == b.key;
      if Terminated(a.key) {
        assert Get(a, a.key) == Get(b, a.key);
      } else {
        forall k | Terminated(k) ensures Get(a.child, k) == Get(b.child, k) {
          JoinKeys(a.key, k);
          var whole := a.key + k;
          assert whole[|a.key|..] == k;
          assert Get(a, whole) == Get(b, whole);
        }
        CanonUnique(a.child, b.child);
      }
    }
  }

  /** Below the shorter key there is a branch, and one of its keys misses the longer key. */
  lemma {:induction false} NoLongerKey(a: Tree, b: Tree)
    requires a.Short? && b.Short? && Canon(a) && Canon(b) && a.key < b.key
    ensures !Same(a, b)
  {
    var n := |a.key|;
    Bounded(a.key, a.child);
    Bounded(b.key, b.child);
    assert a.key[n - 1] == b.key[n - 1];
    var cs := a.child.children;
    var i, j :| 0 <= i < j < |cs| && !cs[i].Nil? && !cs[j].Nil?;
    var k := KeyVia(cs, if b.key[n] == i then j else i);
    JoinKeys(a.key, k);
    var whole := a.key + k;
    assert whole[n..] == k && whole[n] == k[0];
    assert !(b.key <= whole);
    assert Get(a, whole) != Get(b, whole);
  }

  lemma {:induction false} FullUnique(a: Tree, b: Tree)
    requires a.Full? && b.Full? && Canon(a) && Canon(b) && Same(a, b)
    ensures a == b
    decreases a, 0
  {
    forall i | 0 <= i < 17 ensures a.children[i] == b.children[i] {
      if i == 16 {
        var last: Key := [16];
        assert Terminated(last) && last[1..] == [];
        assert Get(a, last) == Get(b, last);
        assert Get(a, last) == Get(a.children[16], last[1..]) && Get(b, last) == Get(b.children[16], last[1..]);
      } else {
        forall k | Terminated(k) ensures Get(a.children[i], k) == Get(b.children[i], k) {
          JoinKeys([i], k);
          var whole: Key := [i] + k;
          assert whole[1..] == k;
          assert Get(a, whole) == Get(b, whole);
        }
        CanonUnique(a.children[i], b.children[i]);
      }
    }
  }

  // ---------------------------------------------------------------- whole histories

  datatype Op = Update(key: Bytes, value: Bytes) | Remove(key: Bytes)

  function Apply(t: Tree, op: Op): (r: Tree)
    requires CanonOrNil(t)
    ensures CanonOrNil(r)
  {
    match op
    case Update(k, v) => InsertCanon(t, KeyHex(k), v); Insert(t, KeyHex(k), v)
    case Remove(k) => DeleteCanon(t, KeyHex(k)); Delete(t, KeyHex(k))
  }

  function RunTree(ops: seq<Op>): (t: Tree)
    ensures CanonOrNil(t)
  {
    if ops == [] then Nil else Apply(RunTree(ops[..|ops| - 1]), ops[|ops| - 1])
  }

  function ApplyMap(m: map<Bytes, Bytes>, op: Op): map<Bytes, Bytes> {
    match op
    case Update(k, v) => m[k := v]
    case Remove(k) => m - {k}
  }

  function RunMap(ops: seq<Op>): map<Bytes, Bytes> {
    if ops == [] then map[] else ApplyMap(RunMap(ops[..|ops| - 1]), ops[|ops| - 1])
  }

  function Lookup(m: map<Bytes, Bytes>, k: Bytes): Option<Bytes> {
    if k in m then Some(m[k]) else None
  }

  /** A trie implements a map: it answers every byte key as the map does and holds no other keys. */
  ghost predicate Implements(t: Tree, m: map<Bytes, Bytes>) {
    && (forall k: Bytes :: Get(t, KeyHex(k)) == Lookup(m, k))
    && (forall key :: Terminated(key) && Get(t, key).Some? ==> exists k: Bytes :: key == KeyHex(k))
  }

  /** One operation on the trie is the same operation on the map. */
  lemma {:induction false} ApplyImplements(t: Tree, m: map<Bytes, Bytes>, op: Op)
    requires CanonOrNil(t) && Implements(t, m)
    ensures Implements(Apply(t, op), ApplyMap(m, op))
  {
    hide Canon, Get, Insert, Delete, KeyHex;
    var r, hex := Apply(t, op), KeyHex(op.key);
    forall key | Terminated(key)
      ensures Get(r, key) == if key != hex then Get(t, key) else if op.Update? then Some(op.value) else None
    {
      match op
      case Update(k, v) => InsertGet(t, hex, v, key);
      case Remove(k) => DeleteGet(t, hex, key);
    }
    forall k: Bytes ensures Get(r, KeyHex(k)) == Lookup(ApplyMap(m, op), k) {
      assert Terminated(KeyHex(k));
      if KeyHex(k) == hex { KeyHexInjective(k, op.key); }
    }
  }

  /** Every run of updates and removals refines the map. */
  lemma {:induction false} RunImplements(ops: seq<Op>)
    ensures Implements(RunTree(ops), RunMap(ops))
    decreases |ops|
  {
    if ops != [] {
      RunImplements(ops[..|ops| - 1]);
      ApplyImplements(RunTree(ops[..|ops| - 1]), RunMap(ops[..|ops| - 1]), ops[|ops| - 1]);
    }
  }

  /** Tries that implement one map are one trie. */
  lemma {:induction false} ImplementsUnique(a: Tree, b: Tree, m: map<Bytes, Bytes>)
    requires CanonOrNil(a) && CanonOrNil(b) && Implements(a, m) && Implements(b, m)
    ensures a == b
  {
    hide Canon, Get, KeyHex;
    forall key | Terminated(key) ensures Get(a, key) == Get(b, key) {
      if Get(a, key).Some? || Get(b, key).Some? {
        var k: Bytes :| key == KeyHex(k);
      }
    }
    CanonUnique(a, b);
  }

  /** History independence: any two runs that end in one map end in one trie. */
  lemma {:induction false} HistoryIndependent(x: seq<Op>, y: seq<Op>)
    requires RunMap(x) == RunMap(y)
    ensures RunTree(x) == RunTree(y)
  {
    hide Canon, RunTree, RunMap, Implements;
    RunImplements(x);
    RunImplements(y);
    ImplementsUnique(RunTree(x), RunTree(y), RunMap(x));
  }
}
