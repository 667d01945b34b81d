/** rlp/raw.go and the byte-level parts of rlp/encode.go: recursive RLP (appendix B of the Ethereum
    Yellow Paper) and the splitter that takes encodings apart. */
module Rlp {
  import opened Words

  /** What is encoded: byte strings and lists. */
  datatype Item = Str(b: Bytes) | Items(items: seq<Item>)

  // ---------------------------------------------------------------- sizes

  /** Big-endian without leading zeros. */
  function BigEndian(n: nat): Bytes {
    if n == 0 then [] else BigEndian(n / 0x100) + [n % 0x100]
  }

  function FromBigEndian(b: Bytes): nat {
    if |b| == 0 then 0 else 0x100 * FromBigEndian(b[..|b| - 1]) + b[|b| - 1] as int
  }

  lemma {:induction false} BigEndianRoundTrip(n: nat)
    ensures FromBigEndian(BigEndian(n)) == n
    ensures n > 0 ==> |BigEndian(n)| > 0 && BigEndian(n)[0] != 0
  {
    if n > 0 {
      BigEndianRoundTrip(n / 0x100);
      assert BigEndian(n)[..|BigEndian(n)| - 1] == BigEndian(n / 0x100);
    }
  }

  /** A byte string without a leading zero is the big-endian form of its value. */
  lemma {:induction false} FromBigEndianRoundTrip(b: Bytes)
    requires |b| > 0 ==> b[0] != 0
    ensures BigEndian(FromBigEndian(b)) == b && (|b| > 0 ==> FromBigEndian(b) > 0)
    decreases |b|
  {
    if |b| > 0 {
      var front, last := b[..|b| - 1], b[|b| - 1];
      FromBigEndianRoundTrip(front);
      var n := FromBigEndian(b);
      assert n / 0x100 == FromBigEndian(front) && n % 0x100 == last;
      assert front + [last] == b;
    }
  }

  lemma {:induction false} BigEndianLength(n: nat, k: nat)
    ensures n < Pow256(k) <==> |BigEndian(n)| <= k
    decreases k
  {
    if n > 0 && k > 0 { BigEndianLength(n / 0x100, k - 1); }
  }

  lemma {:induction false} FromBigEndianBound(b: Bytes)
    ensures FromBigEndian(b) < Pow256(|b|)
    decreases |b|
  {
    if |b| > 0 { FromBigEndianBound(b[..|b| - 1]); }
  }

  /** putInt, case by case. */
  function PutInt(i: Uint64): (b: Bytes)
    ensures 1 <= |b| <= 8
  {
    if i < 0x100 then [i]
    else if i < 0x1_0000 then [i / 0x100, i % 0x100]
    else if i < 0x100_0000 then [i / 0x1_0000, i / 0x100 % 0x100, i % 0x100]
    else if i < 0x1_0000_0000 then [i / 0x100_0000, i / 0x1_0000 % 0x100, i / 0x100 % 0x100, i % 0x100]
    else if i < 0x100_0000_0000 then
      [i / 0x1_0000_0000, i / 0x100_0000 % 0x100, i / 0x1_0000 % 0x100, i / 0x100 % 0x100, i % 0x100]
    else if i < 0x1_0000_0000_0000 then
      [i / 0x100_0000_0000, i / 0x1_0000_0000 % 0x100, i / 0x100_0000 % 0x100, i / 0x1_0000 % 0x100,
       i / 0x100 % 0x100, i % 0x100]
    else if i < 0x100_0000_0000_0000 then
      [i / 0x1_0000_0000_0000, i / 0x100_0000_0000 % 0x100, i / 0x1_0000_0000 % 0x100, i / 0x100_0000 % 0x100,
       i / 0x1_0000 % 0x100, i / 0x100 % 0x100, i % 0x100]
    else
      [i / 0x100_0000_0000_0000, i / 0x1_0000_0000_0000 % 0x100, i / 0x100_0000_0000 % 0x100,
       i / 0x1_0000_0000 % 0x100, i / 0x100_0000 % 0x100, i / 0x1_0000 % 0x100, i / 0x100 % 0x100, i % 0x100]
  }

  lemma {:induction false} PutIntIsBigEndian(i: Uint64)
    requires i > 0
    ensures PutInt(i) == BigEndian(i)
    decreases i
  {
    if i < 0x100 {
      assert BigEndian(0) == [];
      assert BigEndian(i) == BigEndian(i / 0x100) + [i % 0x100];
    } else {
      PutIntIsBigEndian(i / 0x100);
      PutIntStep(i);
    }
  }

  lemma {:induction false} PutIntStep(i: Uint64)
    requires i >= 0x100
    ensures PutInt(i) == PutInt(i / 0x100) + [i % 0x100]
  {
    if i < TWO_32 {
      PutIntStepLow(i);
    } else {
      PutIntStepHigh(i);
    }
  }

  lemma {:induction false} PutIntStepLow(i: Uint64)
    requires 0x100 <= i < TWO_32
    ensures PutInt(i) == PutInt(i / 0x100) + [i % 0x100]
  {
  }

  lemma {:induction false} PutIntStepHigh(i: Uint64)
    requires TWO_32 <= i
    ensures PutInt(i) == PutInt(i / 0x100) + [i % 0x100]
  {
    Quotients(i);
    var j := i / 0x100;
    var a, b := PutInt(i), PutInt(j) + [i % 0x100];
    assert |a| == |b|;
    assert forall k :: 0 <= k < |a| ==> a[k] == b[k];
  }

  /** Dividing by 0x100 first. */
  lemma {:induction false} Quotients(i: nat)
    ensures var j := i / 0x100;
      && j / 0x100 == i / 0x1_0000 && j / 0x1_0000 == i / 0x100_0000 && j / 0x100_0000 == i / 0x1_0000_0000
      && j / 0x1_0000_0000 == i / 0x100_0000_0000 && j / 0x100_0000_0000 == i / 0x1_0000_0000_0000
      && j / 0x1_0000_0000_0000 == i / 0x100_0000_0000_0000
  {
  }

  method IntSize(i: Uint64) returns (size: nat)
    ensures size == if i == 0 then 1 else |BigEndian(i)|
  {
    size := 1;
    var x: Uint64 := i / 0x100;
    while x != 0
      invariant x > 0 ==> size + |BigEndian(x)| == |BigEndian(i)|
      invariant x == 0 ==> size == if i == 0 then 1 else |BigEndian(i)|
    {
      size := size + 1;
      x := x / 0x100;
    }
  }

  // ---------------------------------------------------------------- encoding

  /** putHead. Sizes are below 2^64, so the tag byte never wraps. */
  function Head(smallTag: Byte, largeTag: Byte, size: nat): Bytes {
    if size < 56 then [(smallTag as int + size) % 0x100]
    else [(largeTag as int + |BigEndian(size)|) % 0x100] + BigEndian(size)
  }

  function HeadSize(size: nat): nat {
    if size < 56 then 1 else 1 + |BigEndian(size)|
  }

  function EncodeString(b: Bytes): Bytes {
    if |b| == 1 && b[0] <= 0x7F then b else Head(0x80, 0xB7, |b|) + b
  }

  function ListHeadBytes(size: nat): Bytes {
    Head(0xC0, 0xF7, size)
  }

  function Encode(i: Item): Bytes {
    match i
    case Str(b) => EncodeString(b)
    case Items(items) => ListHeadBytes(|EncodeAll(items)|) + EncodeAll(items)
  }

  function EncodeAll(items: seq<Item>): Bytes {
    if items == [] then [] else Encode(items[0]) + EncodeAll(items[1..])
  }

  // ---------------------------------------------------------------- splitting

  datatype Kind = Byte | String | List

  /** The source's errors, and the index panic of readKind on a lone 0x81. */
  datatype Error = UnexpectedEOF | CanonSize | ValueTooLarge | ExpectedString | ExpectedList | Panic
  datatype Result<+T> = Ok(value: T) | Err(error: Error)

  datatype Tag = Tag(kind: Kind, tagSize: nat, contentSize: nat)
  datatype Piece = Piece(kind: Kind, content: Bytes, rest: Bytes)

  function ReadSize(b: Bytes, sLen: nat): Result<nat>
    requires sLen > 0
  {
    if sLen > |b| then Err(UnexpectedEOF)
    else
      var s := FromBigEndian(b[..sLen]);
      if s < 56 || b[0] == 0 then Err(CanonSize) else Ok(s)
  }

  function Tagged(buf: Bytes, kind: Kind, tagSize: nat, size: Result<nat>): (r: Result<Tag>)
    ensures r.Ok? ==> r.value.tagSize + r.value.contentSize <= |buf|
  {
    if size.Err? then Err(size.error)
    else if tagSize + size.value > |buf| then Err(ValueTooLarge)
    else Ok(Tag(kind, tagSize, size.value))
  }

  function ReadKind(buf: Bytes): (r: Result<Tag>)
    ensures r.Ok? ==> 0 < r.value.tagSize + r.value.contentSize <= |buf|
    ensures r.Ok? && r.value.kind == List ==> r.value.tagSize > 0
  {
    if |buf| == 0 then Err(UnexpectedEOF)
    else
      var b := buf[0] as int;
      if b < 0x80 then Tagged(buf, Byte, 0, Ok(1))
      else if b < 0xB8 then
        if b == 0x81 && |buf| == 1 then Err(Panic)
        else if b == 0x81 && buf[1] < 0x80 then Err(CanonSize)
        else Tagged(buf, String, 1, Ok(b - 0x80))
      else if b < 0xC0 then Tagged(buf, String, b - 0xB7 + 1, ReadSize(buf[1..], b - 0xB7))
      else if b < 0xF8 then Tagged(buf, List, 1, Ok(b - 0xC0))
      else Tagged(buf, List, b - 0xF7 + 1, ReadSize(buf[1..], b - 0xF7))
  }

  function Split(b: Bytes): (r: Result<Piece>)
    ensures r.Ok? ==> |r.value.rest| < |b| && (r.value.kind == List ==> |r.value.content| < |b|)
  {
    var t := ReadKind(b);
    if t.Err? then Err(t.error)
    else
      var Tag(k, ts, cs) := t.value;
      Ok(Piece(k, b[ts..ts + cs], b[ts + cs..]))
  }

  function SplitList(b: Bytes): Result<Piece> {
    var p := Split(b);
    if p.Err? then p else if p.value.kind != List then Err(ExpectedList) else p
  }

  function SplitString(b: Bytes): Result<Piece> {
    var p := Split(b);
    if p.Err? then p else if p.value.kind == List then Err(ExpectedString) else p
  }

  /** What Split should find at the front of an encoding. */
  function KindOf(i: Item): Kind {
    match i
    case Str(b) => if |b| == 1 && b[0] <= 0x7F then Byte else String
    case Items(_) => List
  }

  function ContentOf(i: Item): Bytes {
    match i
    case Str(b) => b
    case Items(items) => EncodeAll(items)
  }

  /** Split undoes Encode, whatever follows. */
  lemma {:induction false} SplitEncode(i: Item, rest: Bytes)
    requires |ContentOf(i)| < TWO_64
    ensures Split(Encode(i) + rest) == Ok(Piece(KindOf(i), ContentOf(i), rest))
  {
    hide EncodeAll;
    var c := ContentOf(i);
    match i
    case Items(items) =>
      SplitHead(0xC0, 0xF7, c, rest);
    case Str(b) =>
      if |b| == 1 && b[0] <= 0x7F {
        assert (b + rest)[0..1] == b && (b + rest)[1..] == rest;
      } else {
        SplitHead(0x80, 0xB7, c, rest);
      }
  }

  /** A head followed by its content, in either of the two tag ranges. */
  lemma {:induction false} SplitHead(small: Byte, large: Byte, c: Bytes, rest: Bytes)
    requires |c| < TWO_64 &&
             ((small, large) == (0xC0, 0xF7) || ((small, large) == (0x80, 0xB7) && (|c| == 1 ==> c[0] > 0x7F)))
    ensures Split(Head(small, large, |c|) + c + rest) ==
            Ok(Piece(if small == 0x80 then String else List, c, rest))
  {
    if |c| < 56 {
      SplitShort(small, large, c, rest);
    } else {
      SplitLong(small, large, c, rest);
    }
  }

  lemma {:induction false} SplitShort(small: Byte, large: Byte, c: Bytes, rest: Bytes)
    requires |c| < 56 &&
             ((small, large) == (0xC0, 0xF7) || ((small, large) == (0x80, 0xB7) && (|c| == 1 ==> c[0] > 0x7F)))
    ensures Split(Head(small, large, |c|) + c + rest) ==
            Ok(Piece(if small == 0x80 then String else List, c, rest))
  {
    hide BigEndian, ReadSize;
    var all := Head(small, large, |c|) + c + rest;
    assert all[0] == small + |c|;
    assert all[1..1 + |c|] == c && all[1 + |c|..] == rest;
    if |c| == 1 { assert all[1] == c[0]; }
  }

  lemma {:induction false} SplitLong(small: Byte, large: Byte, c: Bytes, rest: Bytes)
    requires 56 <= |c| < TWO_64 && ((small, large) == (0xC0, 0xF7) || (small, large) == (0x80, 0xB7))
    ensures Split(Head(small, large, |c|) + c + rest) ==
            Ok(Piece(if small == 0x80 then String else List, c, rest))
  {
    hide BigEndian, FromBigEndian, ReadKind, Head;
    var be := BigEndian(|c|);
    LongHead(small, large, |c|);
    LongParts(large + |be|, be, c, rest);
    LongTag([large + |be|] + be + c + rest, large, |be|, |c|);
  }

  lemma {:induction false} LongHead(small: Byte, large: Byte, size: nat)
    requires 56 <= size < TWO_64 && large in {0xB7, 0xF7}
    ensures var be := BigEndian(size);
      && 1 <= |be| <= 8 && be[0] != 0 && FromBigEndian(be) == size
      && Head(small, large, size) == [large + |be|] + be
  {
    Pow256Values();
    BigEndianLength(size, 8);
    BigEndianRoundTrip(size);
  }

  lemma {:induction false} LongParts(tag: Byte, be: Bytes, c: Bytes, rest: Bytes)
    requires |be| > 0
    ensures var all, n := [tag] + be + c + rest, 1 + |be|;
      && all[0] == tag && all[1] == be[0] && all[1..][..|be|] == be
      && all[n..n + |c|] == c && all[n + |c|..] == rest
  {
  }

  lemma {:induction false} LongTag(all: Bytes, large: Byte, k: nat, size: nat)
    requires 1 <= k <= 8 && large in {0xB7, 0xF7} && |all| >= 1 + k + size && size >= 56
    requires all[0] == large + k && FromBigEndian(all[1..][..k]) == size && all[1] != 0
    ensures ReadKind(all) == Ok(Tag(if large == 0xB7 then String else List, 1 + k, size))
  {
    hide FromBigEndian;
  }

  /** The encoding of a string, or of a list with the given payload. */
  function Reencode(kind: Kind, content: Bytes): Bytes {
    match kind
    case Byte => content
    case String => Head(0x80, 0xB7, |content|) + content
    case List => ListHeadBytes(|content|) + content
  }

  /** Whatever Split accepts is the one encoding of what it returns. */
  lemma {:induction false} SplitCanonical(b: Bytes)
    requires Split(b).Ok?
    ensures var p := Split(b).value;
            && b == Reencode(p.kind, p.content) + p.rest
            && (p.kind != List ==> Reencode(p.kind, p.content) == EncodeString(p.content))
  {
    hide ReadKind, Head;
    TagIsHead(b);
    var Tag(k, ts, cs) := ReadKind(b).value;
    var content := b[ts..ts + cs];
    assert b == b[..ts] + content + b[ts + cs..];
    if k == Byte { assert b[..0] == [] && [] + content == content; }
  }

  lemma {:induction false} TagIsHead(b: Bytes)
    requires ReadKind(b).Ok?
    ensures var Tag(k, ts, cs) := ReadKind(b).value;
            match k
            case Byte => ts == 0 && cs == 1 && b[0] <= 0x7F
            case String => b[..ts] == Head(0x80, 0xB7, cs) && (cs == 1 ==> b[ts] > 0x7F)
            case List => b[..ts] == Head(0xC0, 0xF7, cs)
  {
    hide BigEndian, FromBigEndian;
    var Tag(k, ts, cs) := ReadKind(b).value;
    if ts == 1 {
      assert b[..1] == [b[0]];
    } else if ts > 1 {
      LongTagIsHead(b, if k == List then 0xC0 else 0x80, if k == List then 0xF7 else 0xB7, ts - 1);
    }
  }

  lemma {:induction false} LongTagIsHead(b: Bytes, small: Byte, large: Byte, n: nat)
    requires |b| > 0 && n > 0 && b[0] == large + n && ReadSize(b[1..], n).Ok?
    ensures n + 1 <= |b| && b[..n + 1] == Head(small, large, ReadSize(b[1..], n).value)
  {
    var be := b[1..][..n];
    FromBigEndianRoundTrip(be);
    assert b[..n + 1] == [b[0]] + be;
  }

  // ---------------------------------------------------------------- counting

  /** The number of values in a byte string, zero when some value is malformed. */
  function Count(b: Bytes): Result<nat>
    decreases |b|
  {
    if |b| == 0 then Ok(0)
    else
      var t := ReadKind(b);
      if t.Err? then Err(t.error)
      else
        var n := Count(b[t.value.tagSize + t.value.contentSize..]);
        if n.Err? then n else Ok(1 + n.value)
  }

  method CountValues(b: Bytes) returns (r: Result<nat>)
    ensures r == Count(b)
  {
    var rest, i := b, 0;
    while |rest| > 0
      invariant Count(b) == if Count(rest).Err? then Count(rest) else Ok(i + Count(rest).value)
      decreases |rest|
    {
      var t := ReadKind(rest);
      if t.Err? { return Err(t.error); }
      rest := rest[t.value.tagSize + t.value.contentSize..];
      i := i + 1;
    }
    return Ok(i);
  }

  /** CountValues counts a concatenation of encodings. */
  lemma {:induction false} CountEncodeAll(items: seq<Item>)
    requires |EncodeAll(items)| < TWO_64
    ensures Count(EncodeAll(items)) == Ok(|items|)
    decreases items
  {
    if items != [] {
      var b, rest := EncodeAll(items), EncodeAll(items[1..]);
      ContentFits(items[0]);
      SplitEncode(items[0], rest);
      CountEncodeAll(items[1..]);
      var t := ReadKind(b).value;
      assert b[t.tagSize + t.contentSize..] == rest;
    }
  }

  lemma {:induction false} ContentFits(i: Item)
    ensures |ContentOf(i)| <= |Encode(i)| && |Encode(i)| > 0
  {
  }

  // ---------------------------------------------------------------- the index panic

  /** readKind looks one byte past the end exactly on a lone 0x81. */
  lemma {:induction false} SplitPanicExact(b: Bytes)
    ensures Split(b) == Err(Panic) <==> b == [0x81]
    ensures ReadKind(b) == Err(Panic) <==> b == [0x81]
  {
    hide FromBigEndian;
    if ReadKind(b) == Err(Panic) { assert b == [b[0]]; }
  }

  /** How many bytes after the first give the size. */
  function SizeBytes(b: Bytes): nat
    requires b != []
  {
    if 0xB8 <= b[0] < 0xC0 then b[0] as int - 0xB7 else if b[0] >= 0xF8 then b[0] as int - 0xF7 else 0
  }

  /** A size that could be written shorter: one byte that stands for itself under a header, a leading
      zero, or a long form for less than 56. */
  predicate Overlong(b: Bytes)
    requires b != [] && |b| > SizeBytes(b)
  {
    || (b[0] == 0x81 && |b| > 1 && b[1] < 0x80)
    || (SizeBytes(b) > 0 && (b[1] == 0 || FromBigEndian(b[1..1 + SizeBytes(b)]) < 56))
  }

  /** The size the header announces. */
  function Announced(b: Bytes): int
    requires b != [] && |b| > SizeBytes(b)
  {
    if SizeBytes(b) > 0 then FromBigEndian(b[1..1 + SizeBytes(b)])
    else if b[0] < 0x80 then 0
    else if b[0] < 0xB8 then b[0] as int - 0x80
    else b[0] as int - 0xC0
  }

  /** Which input is refused, and how: a header cut short, an overlong one, content cut short. */
  lemma {:induction false} SplitErrors(b: Bytes)
    ensures Split(b) == Err(UnexpectedEOF) <==> b == [] || |b| <= SizeBytes(b)
    ensures Split(b) == Err(CanonSize) <==> b != [] && |b| > SizeBytes(b) && Overlong(b)
    ensures Split(b) == Err(ValueTooLarge) <==>
            && b != [] && b != [0x81] && |b| > SizeBytes(b) && !Overlong(b)
            && 1 + SizeBytes(b) + Announced(b) > |b|
    ensures Split(b).Err? ==> Split(b).error in {UnexpectedEOF, CanonSize, ValueTooLarge, Panic}
  {
    hide FromBigEndian;
    if b != [] && |b| > SizeBytes(b) > 0 { assert b[1..][..SizeBytes(b)] == b[1..1 + SizeBytes(b)]; }
    if b != [] && b[0] == 0x81 && |b| == 1 { assert b == [0x81]; }
  }

  /** The length of the first value. */
  function Extent(b: Bytes): (n: nat)
    requires ReadKind(b).Ok?
    ensures 0 < n <= |b|
  {
    ReadKind(b).value.tagSize + ReadKind(b).value.contentSize
  }

  /** A value is read from its own bytes alone. */
  lemma {:induction false} KindLocal(b: Bytes, c: Bytes)
    requires ReadKind(b).Ok? && b[..Extent(b)] <= c
    ensures ReadKind(c) == ReadKind(b)
  {
    hide FromBigEndian;
    var n := Extent(b);
    assert c[..n] == b[..n];
    assert b[0] == b[..n][0] && c[0] == c[..n][0];
    var tag := ReadKind(b).value.tagSize;
    if tag > 1 {
      assert b[1..][..tag - 1] == b[..n][1..tag] == c[1..][..tag - 1];
    } else if n > 1 {
      assert b[1] == b[..n][1] && c[1] == c[..n][1];
    }
  }

  lemma {:induction false} CountFirst(b: Bytes)
    requires |b| > 0 && ReadKind(b).Ok?
    ensures var rest := b[Extent(b)..];
      && (Count(b) == Err(Panic) <==> Count(rest) == Err(Panic))
      && (Count(b).Ok? <==> Count(rest).Ok?)
      && (Count(b).Err? ==> Count(b) == Count(rest))
      && (Count(b).Ok? ==> Count(b).value == 1 + Count(rest).value)
  {
    hide ReadKind;
  }

  /** Whole values and then a lone 0x81. */
  predicate EndsLone(b: Bytes) {
    |b| > 0 && b[|b| - 1] == 0x81 && Count(b[..|b| - 1]).Ok?
  }

  /** CountValues panics exactly on such a string. */
  lemma {:induction false} CountPanicExact(b: Bytes)
    ensures Count(b) == Err(Panic) <==> EndsLone(b)
    decreases |b|
  {
    hide ReadKind, Count;
    NoValues();
    SplitPanicExact(b);
    if b == [] {
    } else if b == [0x81] {
      assert b[..0] == [];
      CountLone();
    } else {
      if ReadKind(b).Ok? {
        CountPanicExact(b[Extent(b)..]);
        CountFirst(b);
      }
      LoneShift(b);
    }
  }

  lemma {:induction false} NoValues()
    ensures Count([]) == Ok(0)
  {
  }

  lemma {:induction false} CountLone()
    ensures Count([0x81]) == Err(Panic)
  {
  }

  lemma {:induction false} CountFails(b: Bytes)
    requires |b| > 0 && ReadKind(b).Err?
    ensures Count(b) == Err(ReadKind(b).error)
  {
  }

  /** Counting fails with the error of the first value that is malformed, after whole values. */
  ghost predicate FailsAt(b: Bytes, k: nat, error: Error) {
    k < |b| && Count(b[..k]).Ok? && Split(b[k..]) == Err(error)
  }

  lemma {:induction false} CountErrors(b: Bytes, error: Error)
    ensures Count(b) == Err(error) <==> exists k: nat :: FailsAt(b, k, error)
    decreases |b|
  {
    hide ReadKind, FailsAt, Count;
    if b == [] {
      NoValues();
      NeverFails(error);
    } else if ReadKind(b).Err? {
      CountFails(b);
      FailsFirst(b, error);
    } else {
      var n := Extent(b);
      CountErrors(b[n..], error);
      CountFirst(b);
      FailsLater(b, error);
    }
  }

  lemma {:induction false} NeverFails(error: Error)
    ensures !exists k: nat :: FailsAt([], k, error)
  {
  }

  lemma {:induction false} FailsFirst(b: Bytes, error: Error)
    requires |b| > 0 && ReadKind(b).Err?
    ensures ReadKind(b).error == error <==> exists k: nat :: FailsAt(b, k, error)
  {
    hide ReadKind, Count;
    NoValues();
    assert b[..0] == [] && b[0..] == b;
    if ReadKind(b).error == error { assert FailsAt(b, 0, error); }
    if k: nat :| FailsAt(b, k, error) {
      if k > 0 { WholeFirst(b, k); }
    }
  }

  /** Where whole values come first, so does the first value. */
  lemma {:induction false} WholeFirst(b: Bytes, k: nat)
    requires 0 < k <= |b| && Count(b[..k]).Ok?
    ensures ReadKind(b).Ok? && ReadKind(b[..k]) == ReadKind(b) && Extent(b) <= k
  {
    hide ReadKind, Count;
    if ReadKind(b[..k]).Err? { CountFails(b[..k]); }
    KindLocal(b[..k], b);
  }

  lemma {:induction false} FailsLater(b: Bytes, error: Error)
    requires |b| > 0 && ReadKind(b).Ok?
    ensures (exists k: nat :: FailsAt(b[Extent(b)..], k, error)) <==> exists k: nat :: FailsAt(b, k, error)
  {
    hide ReadKind, Count, FailsAt;
    var n := Extent(b);
    if k: nat :| FailsAt(b[n..], k, error) {
      FailsMoved(b, k, error);
    }
    if k: nat :| FailsAt(b, k, error) {
      FailsBeyond(b, k, error);
      FailsMoved(b, k - n, error);
    }
  }

  lemma {:induction false} FailsBeyond(b: Bytes, k: nat, error: Error)
    requires |b| > 0 && ReadKind(b).Ok? && FailsAt(b, k, error)
    ensures k >= Extent(b)
  {
    hide ReadKind, Count;
    assert b[0..] == b;
    if k > 0 { WholeFirst(b, k); }
  }

  lemma {:induction false} FailsMoved(b: Bytes, k: nat, error: Error)
    requires |b| > 0 && ReadKind(b).Ok?
    ensures FailsAt(b[Extent(b)..], k, error) <==> FailsAt(b, Extent(b) + k, error)
  {
    hide ReadKind, Count;
    var n := Extent(b);
    if n + k < |b| {
      var front := b[..n + k];
      assert b[..n] <= front;
      KindLocal(b, front);
      CountFirst(front);
      assert front[n..] == b[n..][..k] && b[n..][k..] == b[n + k..];
    }
  }

  lemma {:induction false} LoneShift(b: Bytes)
    requires |b| > 0 && b != [0x81]
    requires ReadKind(b).Ok? ==> (Count(b) == Err(Panic) <==> EndsLone(b[Extent(b)..]))
    ensures Count(b) == Err(Panic) <==> EndsLone(b)
  {
    hide ReadKind, Count;
    SplitPanicExact(b);
    NoValues();
    var front := b[..|b| - 1];
    if ReadKind(b).Err? {
      CountFails(b);
      if front != [] && ReadKind(front).Ok? {
        KindLocal(front, b);
      } else if front != [] {
        CountFails(front);
      }
    } else {
      LoneTail(b, Extent(b));
    }
  }

  lemma {:induction false} LoneTail(b: Bytes, n: nat)
    requires |b| > 0 && ReadKind(b).Ok? && n == Extent(b)
    ensures EndsLone(b[n..]) <==> EndsLone(b)
  {
    hide ReadKind, Count;
    var front := b[..|b| - 1];
    if n < |b| {
      assert b[..n] <= front;
      KindLocal(b, front);
      CountFirst(front);
      assert front[n..] == b[n..][..|b| - n - 1];
      assert b[n..][|b| - n - 1] == b[|b| - 1];
    } else {
      WholeNotShorter(b);
    }
  }

  /** A single value cut short is not whole. */
  lemma {:induction false} WholeNotShorter(b: Bytes)
    requires ReadKind(b).Ok? && Extent(b) == |b|
    ensures !EndsLone(b)
  {
    hide ReadKind, Count;
    var front := b[..|b| - 1];
    NoValues();
    if front == [] {
      SplitPanicExact(b);
      assert b == [b[0]];
    } else if ReadKind(front).Ok? {
      assert front[..Extent(front)] <= b;
      KindLocal(front, b);
    } else {
      CountFails(front);
    }
  }
}
