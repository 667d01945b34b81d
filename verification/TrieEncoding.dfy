/** trie/encoding.go: keys as nibbles with a terminator, and their hex-prefix form (appendix C of
    the Ethereum Yellow Paper). */
module TrieEncoding {
  import opened Words

  const TERMINATOR: Byte := 16

  type Key = seq<Byte>

  /** Nibbles only. */
  predicate Nibbled(key: Key) {
    forall i :: 0 <= i < |key| ==> key[i] < 16
  }

  /** Nibbles closed by the terminator: no such key is a proper prefix of another. */
  predicate Terminated(key: Key) {
    |key| > 0 && key[|key| - 1] == TERMINATOR && Nibbled(key[..|key| - 1])
  }

  predicate HasTerm(s: Key) {
    |s| > 0 && s[|s| - 1] == TERMINATOR
  }

  /** High nibble first. */
  function Nibbles(b: Bytes): (r: Key)
    ensures |r| == 2 * |b| && Nibbled(r)
  {
    if |b| == 0 then [] else [b[0] / 16, b[0] % 16] + Nibbles(b[1..])
  }

  function KeyHex(b: Bytes): (r: Key)
    ensures Terminated(r) && |r| == 2 * |b| + 1
  {
    assert (Nibbles(b) + [TERMINATOR])[..2 * |b|] == Nibbles(b);
    Nibbles(b) + [TERMINATOR]
  }

  lemma {:induction false} NibblesAt(b: Bytes, i: nat)
    requires i < |b|
    ensures Nibbles(b)[2 * i] == b[i] / 16 && Nibbles(b)[2 * i + 1] == b[i] % 16
  {
    hide Nibbles;
    NibblesFirst(b);
    if i > 0 {
      NibblesAt(b[1..], i - 1);
      var tail := Nibbles(b[1..]);
      assert Nibbles(b)[2 * i] == tail[2 * (i - 1)] && Nibbles(b)[2 * i + 1] == tail[2 * (i - 1) + 1];
    }
  }

  lemma {:induction false} NibblesFirst(b: Bytes)
    requires b != []
    ensures Nibbles(b) == [b[0] / 16, b[0] % 16] + Nibbles(b[1..])
  {
  }

  method KeyBytesToHex(str: Bytes) returns (key: Key)
    ensures key == KeyHex(str)
  {
    var l := |str| * 2 + 1;
    var nibbles := new Byte[l](_ => 0);
    for i := 0 to |str|
      invariant forall j :: 0 <= j < 2 * i ==> nibbles[j] == Nibbles(str)[j]
    {
      NibblesAt(str, i);
      nibbles[i * 2] := str[i] / 16;
      nibbles[i * 2 + 1] := str[i] % 16;
    }
    nibbles[l - 1] := TERMINATOR;
    key := nibbles[..];
  }

  lemma {:induction false} KeyHexInjective(a: Bytes, b: Bytes)
    requires KeyHex(a) == KeyHex(b)
    ensures a == b
  {
    assert |a| == |b|;
    assert Nibbles(a) == KeyHex(a)[..2 * |a|] == Nibbles(b);
    forall i | 0 <= i < |a| ensures a[i] == b[i] {
      NibblesAt(a, i);
      NibblesAt(b, i);
    }
  }

  /** The inverse of Nibbles on an even number of nibbles. */
  function Joined(n: Key): (b: Bytes)
    requires |n| % 2 == 0 && Nibbled(n)
    ensures |b| == |n| / 2
  {
    if |n| == 0 then [] else [n[0] * 16 + n[1]] + Joined(n[2..])
  }

  lemma {:induction false} NibblesOfJoined(n: Key)
    requires |n| % 2 == 0 && Nibbled(n)
    ensures Nibbles(Joined(n)) == n
  {
    if |n| > 0 {
      NibblesOfJoined(n[2..]);
      assert Joined(n)[1..] == Joined(n[2..]);
      assert [n[0], n[1]] + n[2..] == n;
    }
  }

  // ---------------------------------------------------------------- hex prefix

  /** A key whose terminator, if any, is last. */
  predicate WellFormed(hex: Key) {
    Terminated(hex) || Nibbled(hex)
  }

  /** Two flag bits: terminated, odd; then the nibbles in pairs. */
  function Compact(hex: Key): (b: Bytes)
    requires WellFormed(hex)
    ensures |b| > 0
  {
    if HasTerm(hex) then Packed(1, hex[..|hex| - 1]) else Packed(0, hex)
  }

  /** The flag byte, with the first nibble of an odd number, and the rest in pairs. */
  function Packed(t: nat, n: Key): (b: Bytes)
    requires t <= 1 && Nibbled(n)
    ensures |b| > 0
  {
    if |n| % 2 == 1 then [t * 32 + 16 + n[0]] + Joined(n[1..]) else [t * 32] + Joined(n)
  }

  /** The hex-prefix form by positions: the flags and, of an odd number, the first nibble; then two
      nibbles a byte, the higher first. */
  lemma {:induction false} CompactLayout(hex: Key, i: nat)
    requires WellFormed(hex)
    ensures var term := if HasTerm(hex) then 1 else 0;
      var n, b := |hex| - term, Compact(hex);
      && n >= 0 && |b| == 1 + n / 2
      && b[0] as int == 32 * term + 16 * (n % 2) + (if n % 2 == 1 then hex[0] as int else 0)
      && (i < n / 2 ==> b[1 + i] as int == 16 * hex[2 * i + n % 2] as int + hex[2 * i + n % 2 + 1] as int)
  {
    hide Joined, Packed;
    var term := if HasTerm(hex) then 1 else 0;
    var n := |hex| - term;
    assert HasTerm(hex) || hex[..n] == hex;
    PackedLayout(term, hex[..n], i);
  }

  lemma {:induction false} PackedLayout(t: nat, n: Key, i: nat)
    requires t <= 1 && Nibbled(n)
    ensures var b := Packed(t, n);
      && |b| == 1 + |n| / 2
      && b[0] as int == 32 * t + 16 * (|n| % 2) + (if |n| % 2 == 1 then n[0] as int else 0)
      && (i < |n| / 2 ==> b[1 + i] as int == 16 * n[2 * i + |n| % 2] as int + n[2 * i + |n| % 2 + 1] as int)
  {
    hide Joined;
    var body := if |n| % 2 == 1 then n[1..] else n;
    if i < |n| / 2 { JoinedAt(body, i); }
  }

  method HexToCompact(hex0: Key) returns (buf: Bytes)
    requires WellFormed(hex0)
    ensures buf == Compact(hex0)
  {
    hide Joined;
    var terminator: Byte, hex := 0, hex0;
    if HasTerm(hex) {
      terminator := 1;
      hex := hex[..|hex| - 1];
    }
    buf := PackNibbles(terminator, hex);
  }

  /** The buffer of hexToCompact: flags and an odd nibble in the first byte, then the pairs. */
  method PackNibbles(terminator: Byte, nibbles: Key) returns (buf: Bytes)
    requires terminator <= 1 && Nibbled(nibbles)
    ensures buf == Packed(terminator, nibbles)
  {
    hide Joined;
    var hex := nibbles;
    var out := new Byte[|hex| / 2 + 1](_ => 0);
    out[0] := terminator * 32;
    if |hex| % 2 == 1 {
      out[0] := out[0] + 16 + hex[0];
      hex := hex[1..];
    }
    DecodeNibbles(hex, out);
    buf := out[..];
    assert buf == [buf[0]] + buf[1..];
  }

  /** Pairs of nibbles into the bytes after the first. */
  method DecodeNibbles(nibbles: Key, out: array<Byte>)
    requires |nibbles| % 2 == 0 && Nibbled(nibbles) && out.Length == |nibbles| / 2 + 1
    modifies out
    ensures out[0] == old(out[0]) && out[1..] == Joined(nibbles)
  {
    var bi, ni := 0, 0;
    while ni < |nibbles|
      invariant ni == 2 * bi <= |nibbles| && out[0] == old(out[0])
      invariant forall j :: 0 <= j < bi ==> out[1 + j] == Joined(nibbles)[j]
    {
      JoinedAt(nibbles, bi);
      out[1 + bi] := nibbles[ni] * 16 + nibbles[ni + 1];
      bi, ni := bi + 1, ni + 2;
    }
  }

  lemma {:induction false} JoinedAt(n: Key, i: nat)
    requires |n| % 2 == 0 && Nibbled(n) && 2 * i < |n|
    ensures Joined(n)[i] == n[2 * i] * 16 + n[2 * i + 1]
  {
    if i > 0 { JoinedAt(n[2..], i - 1); }
  }

  /** compactToHex; the source indexes the first nibble, so an empty input panics. */
  function CompactToHex(compact: Bytes): Key
    requires |compact| > 0
  {
    var base := Nibbles(compact);
    var ended := if base[0] >= 2 then base + [TERMINATOR] else base;
    ended[2 - base[0] % 2..]
  }

  /** The hex-prefix form loses nothing. */
  lemma {:induction false} CompactRoundTrip(hex: Key)
    requires WellFormed(hex)
    ensures CompactToHex(Compact(hex)) == hex
  {
    hide CompactToHex, Packed;
    if HasTerm(hex) {
      ExpandPacked(1, hex[..|hex| - 1]);
      assert hex[..|hex| - 1] + [TERMINATOR] == hex;
    } else {
      ExpandPacked(0, hex);
      assert hex + [] == hex;
    }
  }

  lemma {:induction false} ExpandPacked(t: nat, n: Key)
    requires t <= 1 && Nibbled(n)
    ensures CompactToHex(Packed(t, n)) == n + if t == 1 then [TERMINATOR] else []
  {
    hide CompactToHex, Joined;
    if |n| % 2 == 1 {
      ExpandFlagged(t, 1, n[0], n[1..]);
      assert [n[0]] + n[1..] == n;
    } else {
      ExpandFlagged(t, 0, 0, n);
      assert [] + n == n;
    }
  }

  lemma {:induction false} ExpandFlagged(t: nat, odd: nat, x: Byte, body: Key)
    requires t <= 1 && odd <= 1 && x < 16 && (odd == 0 ==> x == 0) && |body| % 2 == 0 && Nibbled(body)
    ensures var c: Bytes := [t * 32 + odd * 16 + x] + Joined(body);
            CompactToHex(c) == (if odd == 1 then [x] else []) + body + (if t == 1 then [TERMINATOR] else [])
  {
    hide Nibbles, Joined, Nibbled;
    FlagParts(t, odd, x);
    var first: Byte := t * 32 + odd * 16 + x;
    FlaggedNibbles(first, body);
    var end: Key := if t == 1 then [TERMINATOR] else [];
    var base: Key := [2 * t + odd, x] + body;
    assert Nibbles([first] + Joined(body)) == base;
    assert CompactToHex([first] + Joined(body)) == (base + end)[2 - odd..] by { assert base + [] == base; }
    if odd == 1 {
      assert (base + end)[1..] == [x] + body + end;
    } else {
      assert (base + end)[2..] == [] + body + end;
    }
  }

  lemma {:induction false} FlagParts(t: nat, odd: nat, x: nat)
    requires t <= 1 && odd <= 1 && x < 16
    ensures (t * 32 + odd * 16 + x) / 16 == 2 * t + odd && (t * 32 + odd * 16 + x) % 16 == x
    ensures (2 * t + odd >= 2 <==> t == 1) && (2 * t + odd) % 2 == odd
  {
  }

  lemma {:induction false} FlaggedNibbles(first: Byte, body: Key)
    requires |body| % 2 == 0 && Nibbled(body)
    ensures Nibbles([first] + Joined(body)) == [first / 16, first % 16] + body
  {
    NibblesOfJoined(body);
    assert ([first] + Joined(body))[1..] == Joined(body);
  }

  // ---------------------------------------------------------------- common prefixes

  function PrefixLen(a: Key, b: Key): (n: nat)
    ensures n <= |a| && n <= |b| && a[..n] == b[..n]
    ensures n < |a| && n < |b| ==> a[n] != b[n]
  {
    if |a| == 0 || |b| == 0 || a[0] != b[0] then 0
    else
      var m := PrefixLen(a[1..], b[1..]);
      assert a[..m + 1] == [a[0]] + a[1..][..m] && b[..m + 1] == [b[0]] + b[1..][..m];
      m + 1
  }

  lemma {:induction false} PrefixLenUnique(a: Key, b: Key, n: nat)
    requires n <= |a| && n <= |b| && a[..n] == b[..n] && (n < |a| && n < |b| ==> a[n] != b[n])
    ensures PrefixLen(a, b) == n
  {
    var m := PrefixLen(a, b);
    assert forall i :: 0 <= i < m ==> a[..m][i] == b[..m][i];
    assert forall i :: 0 <= i < n ==> a[..n][i] == b[..n][i];
    assert forall i :: 0 <= i < m || 0 <= i < n ==> a[i] == b[i];
  }

  method CommonPrefix(a: Key, b: Key) returns (i: nat)
    ensures i == PrefixLen(a, b)
  {
    var length := if |b| < |a| then |b| else |a|;
    i := 0;
    while i < length
      invariant i <= length && a[..i] == b[..i]
    {
      if a[i] != b[i] { break; }
      i := i + 1;
    }
    PrefixLenUnique(a, b, i);
  }

  /** Terminated keys are prefix-free. */
  lemma {:induction false} PrefixFree(a: Key, b: Key)
    requires Terminated(a) && Terminated(b) && a <= b
    ensures a == b
  {
    assert b[|a| - 1] == a[|a| - 1];
    assert forall i :: 0 <= i < |b| - 1 ==> b[i] == b[..|b| - 1][i];
  }

  /** Cutting nibbles off the front of a terminated key. */
  lemma {:induction false} TerminatedTail(key: Key, n: nat)
    requires Terminated(key) && n <= |key|
    ensures n < |key| ==> Terminated(key[n..])
    ensures n < |key| ==> Nibbled(key[..n])
    ensures n == |key| ==> key[n..] == []
  {
    if n < |key| {
      var tail := key[n..];
      forall i | 0 <= i < |tail| - 1 ensures tail[i] < 16 { assert tail[i] == key[..|key| - 1][n + i]; }
      forall i | 0 <= i < n ensures key[i] < 16 { assert key[i] == key[..|key| - 1][i]; }
    }
  }
}
