/** common/zero_copy_sink.go and common/zero_copy_source.go: the growing write buffer, the
    variable-length integers and byte strings, and the reader that takes them apart. */
module ZeroCopy {
  import opened Words

  /** binary.LittleEndian on a fixed width. */
  function LittleEndian(x: nat, width: nat): (b: Bytes)
    ensures |b| == width
  {
    if width == 0 then [] else [x % 0x100] + LittleEndian(x / 0x100, width - 1)
  }

  function FromLittleEndian(b: Bytes): (x: nat)
  {
    if |b| == 0 then 0 else b[0] as int + 0x100 * FromLittleEndian(b[1..])
  }

  /** Byte i is digit i to the base 256, the lowest first. */
  lemma {:induction false} LittleEndianAt(x: nat, width: nat, i: nat)
    requires i < width
    ensures LittleEndian(x, width)[i] == x / Pow256(i) % 0x100
    decreases i
  {
    if i > 0 {
      LittleEndianAt(x / 0x100, width - 1, i - 1);
      DivTwice(x, 0x100, Pow256(i - 1));
    }
  }

  lemma {:induction false} DivTwice(x: nat, a: nat, b: nat)
    requires a > 0 && b > 0
    ensures a * b > 0 && x / a / b == x / (a * b)
  {
    var q, r := x / a, x % a;
    var p, s := q / b, q % b;
    assert x == a * q + r && q == b * p + s;
    assert a * q == a * (b * p) + a * s;
    assert a * (b * p) == (a * b) * p;
    assert a * s + r < a * b by {
      assert a * s <= a * (b - 1) by { MulLess(a, s, b - 1); }
      assert a * (b - 1) == a * b - a;
    }
    DivIs(x, a * b, p, a * s + r);
  }

  lemma {:induction false} MulLess(a: nat, s: nat, t: nat)
    requires s <= t
    ensures a * s <= a * t
  {
    assert a * t == a * s + a * (t - s);
  }

  lemma {:induction false} DivIs(x: nat, m: nat, p: nat, r: nat)
    requires m > 0 && r < m && x == m * p + r
    ensures x / m == p
  {
    var q, t := x / m, x % m;
    assert m * q + t == m * p + r;
    NearMultiples(m, q, p, t, r);
  }

  lemma {:induction false} NearMultiples(m: nat, q: nat, p: nat, t: nat, r: nat)
    requires t < m && r < m && m * q + t == m * p + r
    ensures q == p
  {
    if q < p { MulLess(m, q + 1, p); }
    if p < q { MulLess(m, p + 1, q); }
  }

  lemma {:induction false} LittleEndianRoundTrip(x: nat, width: nat)
    requires x < Pow256(width)
    ensures FromLittleEndian(LittleEndian(x, width)) == x
  {
    if width > 0 {
      LittleEndianRoundTrip(x / 0x100, width - 1);
      assert LittleEndian(x, width)[1..] == LittleEndian(x / 0x100, width - 1);
    }
  }

  lemma {:induction false} FromLittleEndianRoundTrip(b: Bytes)
    ensures FromLittleEndian(b) < Pow256(|b|) && LittleEndian(FromLittleEndian(b), |b|) == b
  {
    if |b| > 0 {
      FromLittleEndianRoundTrip(b[1..]);
      var x := FromLittleEndian(b);
      assert x % 0x100 == b[0] && x / 0x100 == FromLittleEndian(b[1..]);
      assert [b[0]] + b[1..] == b;
    }
  }

  function GetVarUintSize(value: nat): nat {
    if value < 0xFD then 1 else if value <= 0xFFFF then 3 else if value <= 0xFFFF_FFFF then 5 else 9
  }

  /** The shortest of the four forms. */
  function VarUint(data: Uint64): (b: Bytes)
    ensures |b| == GetVarUintSize(data)
  {
    if data < 0xFD then [data]
    else if data <= 0xFFFF then [0xFD] + LittleEndian(data, 2)
    else if data <= 0xFFFF_FFFF then [0xFE] + LittleEndian(data, 4)
    else [0xFF] + LittleEndian(data, 8)
  }

  function VarBytes(data: Bytes): Bytes
    requires |data| < TWO_64
  {
    VarUint(|data|) + data
  }

  // ---------------------------------------------------------------- the sink

  /** A Go slice: the first len bytes of an array that has room for more. */
  class ZeroCopySink {
    var arr: array<Byte>
    var len: nat

    ghost predicate Valid()
      reads this
    {
      len <= arr.Length
    }

    ghost function Contents(): Bytes
      requires Valid()
      reads this, arr
    {
      arr[..len]
    }

    constructor (capacity: nat)
      ensures Valid() && fresh(arr) && Contents() == []
    {
      arr := new Byte[capacity](_ => 0);
      len := 0;
    }

    /** Make room for n more bytes, by reslicing when the capacity allows and else by moving to an
        array of twice the capacity plus n; the new bytes hold whatever was there. */
    method NextBytes(n: nat) returns (at: nat)
      requires Valid()
      modifies this
      ensures Valid() && (arr == old(arr) || fresh(arr))
      ensures at == old(len) && len == at + n && arr[..at] == old(Contents())
    {
      at := len;
      if n <= arr.Length - len {
        len := len + n;
      } else {
        var buf := new Byte[2 * arr.Length + n](_ => 0);
        for i := 0 to len
          invariant arr == old(arr) && len == old(len) && arr[..] == old(arr[..])
          invariant forall j :: 0 <= j < i ==> buf[j] == arr[j]
        {
          buf[i] := arr[i];
        }
        arr := buf;
        len := len + n;
      }
    }

    /** Copy bytes into the array, as copy(buf[at:], p) does. */
    method Put(at: nat, p: Bytes)
      requires Valid() && at + |p| <= len
      modifies arr
      ensures arr[..at] == old(arr[..at]) && arr[at..at + |p|] == p
    {
      for i := 0 to |p|
        invariant arr[..at] == old(arr[..at])
        invariant forall j :: 0 <= j < i ==> arr[at + j] == p[j]
      {
        arr[at + i] := p[i];
      }
    }

    method BackUp(n: nat)
      requires Valid() && n <= len
      modifies this`len
      ensures Valid() && len == old(len) - n
    {
      len := len - n;
    }

    method WriteBytes(p: Bytes)
      requires Valid()
      modifies this, arr
      ensures Valid() && (arr == old(arr) || fresh(arr))
      ensures Contents() == old(Contents()) + p
    {
      ghost var before := Contents();
      var at := NextBytes(|p|);
      Put(at, p);
      assert arr[..len] == arr[..at] + arr[at..at + |p|];
    }

    method WriteByte(c: Byte)
      requires Valid()
      modifies this, arr
      ensures Valid() && (arr == old(arr) || fresh(arr))
      ensures Contents() == old(Contents()) + [c]
    {
      WriteBytes([c]);
    }

    method WriteHash(hash: Digest)
      requires Valid()
      modifies this, arr
      ensures Valid() && (arr == old(arr) || fresh(arr))
      ensures Contents() == old(Contents()) + hash
    {
      WriteBytes(hash);
    }

    /** Take nine bytes, fill the front ones and hand the rest back. */
    method WriteVarUint(data: Uint64) returns (size: nat)
      requires Valid()
      modifies this, arr
      ensures Valid() && (arr == old(arr) || fresh(arr))
      ensures Contents() == old(Contents()) + VarUint(data) && size == GetVarUintSize(data)
    {
      var at := NextBytes(9);
      var form: Bytes;
      if data < 0xFD {
        form, size := [data], 1;
      } else if data <= 0xFFFF {
        form, size := [0xFD] + LittleEndian(data, 2), 3;
      } else if data <= 0xFFFF_FFFF {
        form, size := [0xFE] + LittleEndian(data, 4), 5;
      } else {
        form, size := [0xFF] + LittleEndian(data, 8), 9;
      }
      Put(at, form);
      BackUp(9 - size);
      TwoSlices(arr[..], at, at + size);
      assert arr[..][..len] == arr[..len] && arr[..][..at] == arr[..at] && arr[..][at..at + size] == arr[at..at + size];
    }

    method WriteVarBytes(data: Bytes) returns (size: nat)
      requires Valid() && |data| < TWO_64
      modifies this, arr
      ensures Valid() && (arr == old(arr) || fresh(arr))
      ensures Contents() == old(Contents()) + VarBytes(data) && size == |VarBytes(data)|
    {
      var head := WriteVarUint(|data|);
      WriteBytes(data);
      size := head + |data|;
      assert Contents() == old(Contents()) + (VarUint(|data|) + data);
    }
  }

  // ---------------------------------------------------------------- the source

  /** What NextVarUint reports and how many bytes it takes. */
  datatype VarRead = VarRead(data: Uint64, size: nat, irregular: bool, eof: bool, taken: nat)

  /** A form of the given width after the tag byte; a short tail is swallowed whole. */
  function ReadWide(s: Bytes, width: nat): VarRead
    requires |s| > 0 && width in {2, 4, 8}
  {
    if |s| < 1 + width then VarRead(0, 0, false, true, |s|)
    else
      var x := FromLittleEndian(s[1..1 + width]);
      FromLittleEndianRoundTrip(s[1..1 + width]);
      Pow256Values();
      VarRead(x, 1 + width, 1 + width != GetVarUintSize(x), false, 1 + width)
  }

  function ReadVarUint(s: Bytes): (r: VarRead)
    ensures r.taken <= |s|
  {
    if |s| == 0 then VarRead(0, 0, false, true, 0)
    else if s[0] == 0xFD then ReadWide(s, 2)
    else if s[0] == 0xFE then ReadWide(s, 4)
    else if s[0] == 0xFF then ReadWide(s, 8)
    else VarRead(s[0], 1, false, false, 1)
  }

  /** Whatever is written is read back as regular, and nothing after it is touched. */
  lemma {:induction false} VarUintRoundTrip(x: Uint64, rest: Bytes)
    ensures ReadVarUint(VarUint(x) + rest) == VarRead(x, GetVarUintSize(x), false, false, GetVarUintSize(x))
  {
    var s := VarUint(x) + rest;
    if x >= 0xFD {
      var width := GetVarUintSize(x) - 1;
      Pow256Values();
      LittleEndianRoundTrip(x, width);
      assert s[1..1 + width] == LittleEndian(x, width);
    }
  }

  /** A regular read took exactly the written form of its result. */
  lemma {:induction false} VarUintCanonical(s: Bytes)
    requires !ReadVarUint(s).eof && !ReadVarUint(s).irregular
    ensures s[..ReadVarUint(s).taken] == VarUint(ReadVarUint(s).data)
  {
    var r := ReadVarUint(s);
    if r.taken > 1 {
      var width := r.taken - 1;
      FromLittleEndianRoundTrip(s[1..1 + width]);
      assert s[..1 + width] == [s[0]] + s[1..1 + width];
    }
  }

  /** No form that reads as a number is shorter than its written form, and a reading is irregular
      exactly if it took more. */
  lemma {:induction false} VarUintShortest(s: Bytes)
    requires !ReadVarUint(s).eof
    ensures var r := ReadVarUint(s);
      |VarUint(r.data)| <= r.taken && (r.irregular <==> |VarUint(r.data)| < r.taken)
  {
    var r := ReadVarUint(s);
    if r.taken > 1 {
      FromLittleEndianRoundTrip(s[1..r.taken]);
      Pow256Values();
    }
  }

  class ZeroCopySource {
    const s: Bytes
    var off: nat

    ghost predicate Valid()
      reads this
    {
      off <= |s| < TWO_64
    }

    constructor (b: Bytes)
      requires |b| < TWO_64
      ensures Valid() && s == b && off == 0
    {
      s := b;
      off := 0;
    }

    method NextBytes(n: Uint64) returns (data: Bytes, eof: bool)
      requires Valid()
      modifies this
      ensures Valid() && eof == (old(off) + n > |s|)
      ensures off == (if eof then |s| else old(off) + n) && data == s[old(off)..off]
    {
      var end := off + n;
      eof := false;
      if end >= TWO_64 || end > |s| {
        end := |s|;
        eof := true;
      }
      data := s[off..end];
      off := end;
    }

    method NextByte() returns (data: Byte, eof: bool)
      requires Valid()
      modifies this
      ensures Valid() && eof == (old(off) == |s|)
      ensures if eof then off == old(off) && data == 0 else off == old(off) + 1 && data == s[old(off)]
    {
      if off >= |s| { return 0, true; }
      data := s[off];
      off := off + 1;
      eof := false;
    }

    method NextHash() returns (data: Digest, eof: bool)
      requires Valid()
      modifies this
      ensures Valid() && eof == (old(off) + UINT256_SIZE > |s|)
      ensures if eof then off == |s| && data == EMPTY_HASH
              else off == old(off) + UINT256_SIZE && data == s[old(off)..off]
    {
      data := EMPTY_HASH;
      var buf: Bytes;
      buf, eof := NextBytes(UINT256_SIZE);
      if !eof { data := buf; }
    }

    /** NextUint16, NextUint32 and NextUint64. */
    method NextUint(width: nat) returns (data: nat, eof: bool)
      requires Valid() && width in {2, 4, 8}
      modifies this
      ensures Valid() && eof == (old(off) + width > |s|)
      ensures if eof then off == |s| && data == 0
              else off == old(off) + width && data == FromLittleEndian(s[old(off)..off])
    {
      data := 0;
      var buf: Bytes;
      buf, eof := NextBytes(width);
      if !eof { data := FromLittleEndian(buf); }
    }

    method NextVarUint() returns (data: nat, size: nat, irregular: bool, eof: bool)
      requires Valid()
      modifies this
      ensures Valid()
      ensures var r := ReadVarUint(s[old(off)..]);
              (data, size, irregular, eof, off) == (r.data, r.size, r.irregular, r.eof, old(off) + r.taken)
    {
      hide FromLittleEndian;
      ghost var start, tail := off, s[off..];
      data, size, irregular := 0, 0, false;
      var fb: Byte;
      fb, eof := NextByte();
      if eof { return; }
      var width := if fb == 0xFD then 2 else if fb == 0xFE then 4 else if fb == 0xFF then 8 else 0;
      if width == 0 {
        data, size := fb, 1;
      } else {
        if |tail| >= 1 + width { TailSlice(s, start, 1, 1 + width); }
        data, eof := NextUint(width);
        if eof { return; }
        size := 1 + width;
      }
      irregular := size != GetVarUintSize(data);
    }

    /** The end-of-file flag of a non-empty body replaces that of its length. */
    method NextVarBytes() returns (data: Bytes, size: nat, irregular: bool, eof: bool)
      requires Valid()
      modifies this
      ensures Valid()
      ensures var r := ReadVarUint(s[old(off)..]);
              var start := old(off) + r.taken;
              && size == r.size + r.data && irregular == r.irregular
              && eof == (if r.data > 0 then start + r.data > |s| else r.eof)
              && off == (if start + r.data > |s| then |s| else start + r.data)
              && data == s[start..off]
    {
      hide ReadVarUint;
      var count: nat;
      count, size, irregular, eof := NextVarUint();
      size := size + count;
      data := [];
      if count > 0 {
        data, eof := NextBytes(count);
      }
    }
  }
}
