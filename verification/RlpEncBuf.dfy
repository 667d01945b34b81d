/** rlp/encode.go, encBuf: strings go to one flat buffer, list heads to a side table whose sizes
    are filled in when each list ends, and a second pass weaves the two together. */
module RlpEncBuf {
  import opened Words
  import opened Rlp

  /** Where a list starts in the flat buffer, and the size of its payload. */
  datatype ListHead = ListHead(offset: nat, size: nat)

  // ---------------------------------------------------------------- what one item adds

  /** The flat bytes of an item: every list head left out. */
  function Flat(i: Item): Bytes {
    match i
    case Str(b) => EncodeString(b)
    case Items(items) => FlatAll(items)
  }

  function FlatAll(items: seq<Item>): Bytes {
    if items == [] then [] else Flat(items[0]) + FlatAll(items[1..])
  }

  /** The heads of an item written at a flat offset, outer lists before inner ones. */
  function Heads(i: Item, base: nat): seq<ListHead> {
    match i
    case Str(_) => []
    case Items(items) => [ListHead(base, |EncodeAll(items)|)] + HeadsAll(items, base)
  }

  function HeadsAll(items: seq<Item>, base: nat): seq<ListHead> {
    if items == [] then [] else Heads(items[0], base) + HeadsAll(items[1..], base + |Flat(items[0])|)
  }

  /** The total size of the heads of an item. */
  function HeadsSize(i: Item): nat {
    match i
    case Str(_) => 0
    case Items(items) => HeadSize(|EncodeAll(items)|) + HeadsSizeAll(items)
  }

  function HeadsSizeAll(items: seq<Item>): nat {
    if items == [] then 0 else HeadsSize(items[0]) + HeadsSizeAll(items[1..])
  }

  lemma {:induction false} EncodeLength(i: Item)
    ensures |Encode(i)| == |Flat(i)| + HeadsSize(i)
    decreases i, 0
  {
    match i
    case Str(_) =>
    case Items(items) => EncodeAllLength(items);
  }

  lemma {:induction false} EncodeAllLength(items: seq<Item>)
    ensures |EncodeAll(items)| == |FlatAll(items)| + HeadsSizeAll(items)
    decreases items
  {
    if items != [] {
      EncodeLength(items[0]);
      EncodeAllLength(items[1..]);
    }
  }

  // ---------------------------------------------------------------- the second pass

  /** The flat bytes from pos on with every head put in at its offset. */
  function Weave(str: Bytes, heads: seq<ListHead>, pos: nat): Bytes
    requires pos <= |str|
    decreases |heads|
  {
    if heads == [] then str[pos..]
    else
      var o := heads[0].offset;
      if pos <= o <= |str| then str[pos..o] + ListHeadBytes(heads[0].size) + Weave(str, heads[1..], o) else []
  }

  /** The heads come one after the other between pos and end. */
  predicate InOrder(heads: seq<ListHead>, pos: nat, end: nat)
    decreases |heads|
  {
    pos <= end && (heads != [] ==> pos <= heads[0].offset <= end && InOrder(heads[1..], heads[0].offset, end))
  }

  /** The flat buffer has the given part at pos. */
  predicate Sits(str: Bytes, pos: nat, part: Bytes) {
    pos + |part| <= |str| && str[pos..pos + |part|] == part
  }

  lemma {:induction false} SitsParts(str: Bytes, pos: nat, a: Bytes, b: Bytes)
    requires Sits(str, pos, a + b)
    ensures Sits(str, pos, a) && Sits(str, pos + |a|, b)
  {
    var c := str[pos..pos + |a + b|];
    assert c[..|a|] == a && c[|a|..] == b;
    assert str[pos..pos + |a|] == c[..|a|];
    assert str[pos + |a|..pos + |a| + |b|] == c[|a|..];
  }

  /** Bytes before the first head pass through. */
  lemma {:induction false} WeaveFlat(str: Bytes, heads: seq<ListHead>, pos: nat, next: nat)
    requires pos <= next && InOrder(heads, next, |str|)
    ensures Weave(str, heads, pos) == str[pos..next] + Weave(str, heads, next)
  {
    hide ListHeadBytes;
    if heads == [] {
      assert str[pos..] == str[pos..next] + str[next..];
    } else {
      var o, h := heads[0].offset, ListHeadBytes(heads[0].size);
      var w := Weave(str, heads[1..], o);
      assert str[pos..o] == str[pos..next] + str[next..o];
      Assoc(str[pos..next], str[next..o], h);
      Assoc(str[pos..next], str[next..o] + h, w);
    }
  }

  /** An item's heads weave its flat bytes into its recursive encoding. */
  lemma {:induction false} WeaveItem(str: Bytes, i: Item, later: seq<ListHead>, pos: nat)
    requires Sits(str, pos, Flat(i)) && InOrder(later, pos + |Flat(i)|, |str|)
    ensures InOrder(Heads(i, pos) + later, pos, |str|)
    ensures Weave(str, Heads(i, pos) + later, pos) == Encode(i) + Weave(str, later, pos + |Flat(i)|)
    decreases i, 1
  {
    hide EncodeAll, FlatAll, HeadsAll, Weave;
    match i
    case Str(b) =>
      assert [] + later == later;
      WeaveFlat(str, later, pos, pos + |Flat(i)|);
      OrderFrom(later, pos, pos + |Flat(i)|, |str|);
    case Items(items) =>
      hide Heads, Encode;
      WeaveAll(str, items, later, pos);
      WeaveList(str, items, later, pos);
  }

  lemma {:induction false} OrderFrom(heads: seq<ListHead>, pos: nat, next: nat, end: nat)
    requires pos <= next && InOrder(heads, next, end)
    ensures InOrder(heads, pos, end)
  {
  }

  lemma {:induction false} WeaveList(str: Bytes, items: seq<Item>, later: seq<ListHead>, pos: nat)
    requires pos + |FlatAll(items)| <= |str| && InOrder(HeadsAll(items, pos) + later, pos, |str|)
    requires Weave(str, HeadsAll(items, pos) + later, pos) ==
             EncodeAll(items) + Weave(str, later, pos + |FlatAll(items)|)
    ensures InOrder(Heads(Items(items), pos) + later, pos, |str|)
    ensures Weave(str, Heads(Items(items), pos) + later, pos) ==
            Encode(Items(items)) + Weave(str, later, pos + |FlatAll(items)|)
  {
    hide EncodeAll, HeadsAll, FlatAll, ListHeadBytes;
    var inner, size := HeadsAll(items, pos) + later, |EncodeAll(items)|;
    var all := Heads(Items(items), pos) + later;
    assert all == [ListHead(pos, size)] + inner;
    assert all[1..] == inner;
    assert str[pos..pos] + ListHeadBytes(size) == ListHeadBytes(size);
    assert Weave(str, all, pos) == ListHeadBytes(size) + Weave(str, inner, pos);
  }

  lemma {:induction false} WeaveAll(str: Bytes, items: seq<Item>, later: seq<ListHead>, pos: nat)
    requires Sits(str, pos, FlatAll(items)) && InOrder(later, pos + |FlatAll(items)|, |str|)
    ensures InOrder(HeadsAll(items, pos) + later, pos, |str|)
    ensures Weave(str, HeadsAll(items, pos) + later, pos) ==
            EncodeAll(items) + Weave(str, later, pos + |FlatAll(items)|)
    decreases items, 0
  {
    hide Weave, Heads, Flat, Encode, InOrder;
    if items == [] {
      assert [] + later == later;
      assert [] + Weave(str, later, pos) == Weave(str, later, pos);
    } else {
      var mid := pos + |Flat(items[0])|;
      SitsParts(str, pos, Flat(items[0]), FlatAll(items[1..]));
      WeaveAll(str, items[1..], later, mid);
      WeaveItem(str, items[0], HeadsAll(items[1..], mid) + later, pos);
      WeaveCons(items[0], items[1..], later, pos, Weave(str, later, pos + |FlatAll(items)|));
      assert [items[0]] + items[1..] == items;
    }
  }

  lemma {:induction false} WeaveCons(i: Item, rest: seq<Item>, later: seq<ListHead>, pos: nat, end: Bytes)
    ensures Heads(i, pos) + (HeadsAll(rest, pos + |Flat(i)|) + later) == HeadsAll([i] + rest, pos) + later
    ensures Encode(i) + (EncodeAll(rest) + end) == EncodeAll([i] + rest) + end
    ensures FlatAll([i] + rest) == Flat(i) + FlatAll(rest)
  {
    hide Heads, Flat, Encode;
    assert ([i] + rest)[1..] == rest;
    Assoc(Heads(i, pos), HeadsAll(rest, pos + |Flat(i)|), later);
    Assoc(Encode(i), EncodeAll(rest), end);
  }

  /** A finished buffer weaves into the encoding of what was written. */
  lemma {:induction false} WeaveIsEncode(i: Item)
    ensures InOrder(Heads(i, 0), 0, |Flat(i)|) && Weave(Flat(i), Heads(i, 0), 0) == Encode(i)
  {
    hide Flat, Heads, Encode, Weave, InOrder;
    var str := Flat(i);
    assert str[0..0 + |str|] == str;
    NoHeads(str);
    WeaveItem(str, i, [], 0);
    assert Heads(i, 0) + [] == Heads(i, 0) && Encode(i) + [] == Encode(i);
  }

  lemma {:induction false} NoHeads(str: Bytes)
    ensures Weave(str, [], |str|) == [] && InOrder([], |str|, |str|)
  {
  }

  // ---------------------------------------------------------------- the buffer

  class EncBuf {
    var str: Bytes
    var lHeads: seq<ListHead>
    var lHSize: nat

    constructor ()
      ensures str == [] && lHeads == [] && lHSize == 0
    {
      str, lHeads, lHSize := [], [], 0;
    }

    method Reset()
      modifies this
      ensures str == [] && lHeads == [] && lHSize == 0
    {
      str, lHeads, lHSize := [], [], 0;
    }

    function Size(): nat
      reads this
    {
      |str| + lHSize
    }

    method EncodeString(b: Bytes)
      requires |b| < TWO_64
      modifies this`str
      ensures str == old(str) + Rlp.EncodeString(b)
    {
      if |b| == 1 && b[0] <= 0x7F {
        str := str + [b[0]];
        assert b == [b[0]];
      } else {
        EncodeStringHeader(|b|);
        str := str + b;
      }
    }

    method EncodeStringHeader(size: Uint64)
      modifies this`str
      ensures str == old(str) + Head(0x80, 0xB7, size)
    {
      if size < 56 {
        str := str + [0x80 + size];
      } else {
        var be := PutInt(size);
        PutIntIsBigEndian(size);
        str := str + ([0xB7 + |be|] + be);
      }
    }

    /** Open a list: remember the flat offset and the head bytes so far. The returned index stands
        for the pointer the source hands out. */
    method List() returns (lh: nat)
      modifies this`lHeads
      ensures lh == |old(lHeads)| && lHeads == old(lHeads) + [ListHead(|str|, lHSize)]
    {
      lh := |lHeads|;
      lHeads := lHeads + [ListHead(|str|, lHSize)];
    }

    /** Close a list: what was written since it opened is its payload. */
    method ListEnd(lh: nat)
      requires lh < |lHeads| && 0 <= Size() - lHeads[lh].offset - lHeads[lh].size < TWO_64
      modifies this`lHeads, this`lHSize
      ensures var size := old(Size() - lHeads[lh].offset - lHeads[lh].size);
              && lHeads == old(lHeads)[lh := ListHead(old(lHeads)[lh].offset, size)]
              && lHSize == old(lHSize) + HeadSize(size)
    {
      var size := Size() - lHeads[lh].offset - lHeads[lh].size;
      lHeads := lHeads[lh := ListHead(lHeads[lh].offset, size)];
      if size < 56 {
        lHSize := lHSize + 1;
      } else {
        var n := IntSize(size);
        lHSize := lHSize + 1 + n;
      }
    }

    /** The writer of an item: strings at once, a list between its opening and its closing. */
    method Write(i: Item)
      requires |Encode(i)| < TWO_64
      modifies this
      ensures str == old(str) + Flat(i)
      ensures lHeads == old(lHeads) + Heads(i, |old(str)|)
      ensures lHSize == old(lHSize) + HeadsSize(i)
      decreases i, 1
    {
      match i
      case Str(b) =>
        EncodeString(b);
        assert lHeads + [] == lHeads;
      case Items(items) =>
        ghost var str0, heads0, size0 := str, lHeads, lHSize;
        var lh := List();
        ghost var open := lHeads;
        WriteAll(items);
        EncodeAllLength(items);
        ListEnd(lh);
        ClosedHead(heads0, ListHead(|str0|, size0), HeadsAll(items, |str0|), ListHead(|str0|, |EncodeAll(items)|));
    }

    method WriteAll(items: seq<Item>)
      requires |EncodeAll(items)| < TWO_64
      modifies this
      ensures str == old(str) + FlatAll(items)
      ensures lHeads == old(lHeads) + HeadsAll(items, |old(str)|)
      ensures lHSize == old(lHSize) + HeadsSizeAll(items)
      decreases items, 0
    {
      ghost var str0 := str;
      assert items[0..] == items;
      for k := 0 to |items|
        invariant str + FlatAll(items[k..]) == str0 + FlatAll(items)
        invariant lHeads + HeadsAll(items[k..], |str|) == old(lHeads) + HeadsAll(items, |str0|)
        invariant lHSize + HeadsSizeAll(items[k..]) == old(lHSize) + HeadsSizeAll(items)
        invariant |EncodeAll(items[k..])| < TWO_64
      {
        assert items[k..][0] == items[k] && items[k..][1..] == items[k + 1..];
        Assoc(str, Flat(items[k]), FlatAll(items[k + 1..]));
        Assoc(lHeads, Heads(items[k], |str|), HeadsAll(items[k + 1..], |str| + |Flat(items[k])|));
        Write(items[k]);
      }
      assert items[|items|..] == [];
      assert str + [] == str && lHeads + [] == lHeads;
    }

    /** The buffer holds exactly one item. */
    ghost predicate Holds(i: Item)
      reads this
    {
      str == Flat(i) && lHeads == Heads(i, 0) && lHSize == HeadsSize(i) && |Encode(i)| < TWO_64
    }

    method ToBytes(ghost i: Item) returns (out: array<Byte>)
      requires Holds(i)
      ensures fresh(out) && out[..] == Encode(i)
    {
      hide Flat, Heads, HeadsSize, Encode, ListHeadBytes;
      out := new Byte[Size()](_ => 0);
      WeaveIsEncode(i);
      EncodeLength(i);
      var strPos: nat, pos: nat := 0, 0;
      for k := 0 to |lHeads|
        invariant strPos <= |str| && InOrder(lHeads[k..], strPos, |str|)
        invariant pos + |Weave(str, lHeads[k..], strPos)| == out.Length
        invariant out[..pos] + Weave(str, lHeads[k..], strPos) == Encode(i)
      {
        var head := lHeads[k];
        assert lHeads[k..][1..] == lHeads[k + 1..];
        ghost var rest := Weave(str, lHeads[k + 1..], head.offset);
        var text, tag := str[strPos..head.offset], ListHeadBytes(head.size);
        ghost var before := out[..pos];
        Assoc(before, text, tag);
        Assoc(before, text + tag, rest);
        Copy(out, pos, text);
        pos := pos + |text|;
        strPos := head.offset;
        Copy(out, pos, tag);
        pos := pos + |tag|;
        assert out[..pos] == before + text + tag;
      }
      Copy(out, pos, str[strPos..]);
      assert out[..] == out[..pos] + str[strPos..];
    }

    method ToWriter(ghost i: Item) returns (out: Bytes)
      requires Holds(i)
      ensures out == Encode(i)
    {
      hide Flat, Heads, HeadsSize, Encode, ListHeadBytes;
      WeaveIsEncode(i);
      out := [];
      var strops: nat := 0;
      assert lHeads[0..] == lHeads;
      for k := 0 to |lHeads|
        invariant strops <= |str| && InOrder(lHeads[k..], strops, |str|)
        invariant out + Weave(str, lHeads[k..], strops) == Encode(i)
      {
        var head := lHeads[k];
        assert lHeads[k..][1..] == lHeads[k + 1..];
        ghost var text, rest := str[strops..head.offset], Weave(str, lHeads[k + 1..], head.offset);
        Assoc(out, text, ListHeadBytes(head.size));
        Assoc(out, text + ListHeadBytes(head.size), rest);
        if head.offset - strops > 0 {
          out := out + str[strops..head.offset];
          strops := head.offset;
        } else {
          assert text == [] && out + [] == out;
        }
        out := out + ListHeadBytes(head.size);
      }
      if strops < |str| {
        out := out + str[strops..];
      } else {
        assert str[strops..] == [] && out + [] == out;
      }
    }
  }

  lemma {:induction false} ClosedHead(before: seq<ListHead>, open: ListHead, inner: seq<ListHead>, closed: ListHead)
    ensures (before + [open] + inner)[|before| := closed] == before + ([closed] + inner)
  {
  }

  method Copy(out: array<Byte>, pos: nat, b: Bytes)
    requires pos + |b| <= out.Length
    modifies out
    ensures out[..pos] == old(out[..pos]) && out[..pos + |b|] == old(out[..pos]) + b
  {
    for j := 0 to |b|
      invariant out[..pos + j] == old(out[..pos]) + b[..j]
    {
      out[pos + j] := b[j];
    }
    assert b[..|b|] == b;
    assert out[..pos] == out[..pos + |b|][..pos];
  }

  /** EncodeToBytes: the two passes together give recursive RLP for every item. */
  method EncodeToBytes(i: Item) returns (out: Bytes)
    requires |Encode(i)| < TWO_64
    ensures out == Encode(i)
  {
    var eb := new EncBuf();
    eb.Reset();
    eb.Write(i);
    assert [] + Flat(i) == Flat(i) && [] + Heads(i, 0) == Heads(i, 0);
    var bytes := eb.ToBytes(i);
    out := bytes[..];
  }
}
