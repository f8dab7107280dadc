/**
 * Fixed-width unsigned integers and little-endian encoding, the way
 * `BitConverter` reads and writes them on a little-endian machine.
 */
module Bytes {

  type u8 = x: int | 0 <= x < 0x100
  type u16 = x: int | 0 <= x < 0x1_0000
  type u32 = x: int | 0 <= x < 0x1_0000_0000
  type u64 = x: int | 0 <= x < 0x1_0000_0000_0000_0000
  type i32 = x: int | -0x8000_0000 <= x < 0x8000_0000

  const U32_MAX: u32 := 0xFFFF_FFFF
  const I32_MAX: i32 := 0x7FFF_FFFF

  /** 256 to the power n: the number of values an n-byte field holds. */
  function Pow256(n: nat): (r: nat)
    ensures r >= 1
  {
    if n == 0 then 1 else 256 * Pow256(n - 1)
  }

  /** The ranges of the one-, two-, four- and eight-byte fields. */
  lemma Pow256Widths()
    ensures Pow256(1) == 0x100 && Pow256(2) == 0x1_0000
    ensures Pow256(4) == 0x1_0000_0000 && Pow256(8) == 0x1_0000_0000_0000_0000
  {
    assert Pow256(2) == 256 * Pow256(1);
    assert Pow256(4) == 256 * 256 * Pow256(2);
    assert Pow256(8) == 256 * 256 * Pow256(6);
    assert Pow256(6) == 256 * 256 * Pow256(4);
  }

  /** C# unsigned 32-bit arithmetic: the result wraps modulo 2^32. */
  function Wrap32(x: int): (r: u32)
    ensures 0 <= x < 0x1_0000_0000 ==> r == x
    ensures (r - x) % 0x1_0000_0000 == 0
  {
    x % 0x1_0000_0000
  }

  /** A cast `(ushort)x`: the low 16 bits. */
  function Wrap16(x: int): (r: u16)
    ensures 0 <= x < 0x1_0000 ==> r == x
  {
    x % 0x1_0000
  }

  /** C# unsigned 64-bit arithmetic. */
  function Wrap64(x: int): (r: u64)
    ensures 0 <= x < 0x1_0000_0000_0000_0000 ==> r == x
  {
    x % 0x1_0000_0000_0000_0000
  }

  /** A cast `(byte)x`: the low 8 bits. */
  function Wrap8(x: int): (r: u8)
    ensures 0 <= x < 0x100 ==> r == x
  {
    x % 0x100
  }

  /** A cast `(int)x` of a wider integer: the low 32 bits read as two's complement. */
  function ToInt32(x: int): (r: i32)
    ensures -0x8000_0000 <= x < 0x8000_0000 ==> r == x
    ensures (r - x) % 0x1_0000_0000 == 0
  {
    var w := x % 0x1_0000_0000;
    if w >= 0x8000_0000 then w - 0x1_0000_0000 else w
  }

  /** `(x & mask) == mask` for a mask with a single bit set. */
  predicate HasBit(x: nat, mask: nat)
    requires mask > 0
  {
    (x / mask) % 2 == 1
  }

  /** The value of the n bytes at s[off..off+n], least significant first. */
  function ReadLE(s: seq<u8>, off: nat, n: nat): (r: nat)
    requires off + n <= |s|
    ensures r < Pow256(n)
    decreases n
  {
    if n == 0 then 0 else s[off] + 256 * ReadLE(s, off + 1, n - 1)
  }

  /** The n little-endian bytes of v (v is taken modulo 256^n). */
  function EncodeLE(v: nat, n: nat): (r: seq<u8>)
    ensures |r| == n
  {
    if n == 0 then [] else [v % 256] + EncodeLE(v / 256, n - 1)
  }

  function U16At(s: seq<u8>, off: nat): u16
    requires off + 2 <= |s|
  {
    ReadLE(s, off, 2)
  }

  function U32At(s: seq<u8>, off: nat): u32
    requires off + 4 <= |s|
  {
    ReadLE(s, off, 4)
  }

  function U64At(s: seq<u8>, off: nat): u64
    requires off + 8 <= |s|
  {
    ReadLE(s, off, 8)
  }

  function LE16(v: u16): (r: seq<u8>)
    ensures |r| == 2
  {
    EncodeLE(v, 2)
  }

  function LE32(v: u32): (r: seq<u8>)
    ensures |r| == 4
  {
    EncodeLE(v, 4)
  }

  function LE64(v: u64): (r: seq<u8>)
    ensures |r| == 8
  {
    EncodeLE(v, 8)
  }

  /** `Buffer.BlockCopy` of w into s at off: the bytes outside [off, off+|w|) are unchanged. */
  function Patch(s: seq<u8>, off: nat, w: seq<u8>): (r: seq<u8>)
    requires off + |w| <= |s|
    ensures |r| == |s|
    ensures forall k :: off <= k < off + |w| ==> r[k] == w[k - off]
    ensures forall k :: 0 <= k < |s| && !(off <= k < off + |w|) ==> r[k] == s[k]
  {
    seq(|s|, k requires 0 <= k < |s| => if off <= k < off + |w| then w[k - off] else s[k])
  }

  /** Decoding what was encoded gives the value back. */
  lemma {:induction false} ReadEncode(v: nat, n: nat)
    requires v < Pow256(n)
    ensures ReadLE(EncodeLE(v, n), 0, n) == v
  {
    if n > 0 {
      var e := EncodeLE(v, n);
      ReadEncode(v / 256, n - 1);
      ReadShift(e, 1, n - 1);
      assert e[1..] == EncodeLE(v / 256, n - 1);
    }
  }

  /** Reading at off + 1 in s is reading at off in s[1..]. */
  lemma {:induction false} ReadShift(s: seq<u8>, off: nat, n: nat)
    requires 1 <= off && off + n <= |s|
    ensures ReadLE(s, off, n) == ReadLE(s[1..], off - 1, n)
    decreases n
  {
    if n > 0 {
      ReadShift(s, off + 1, n - 1);
    }
  }

  /** A field's bytes depend only on the slice the field occupies. */
  lemma {:induction false} ReadSlice(s: seq<u8>, off: nat, n: nat)
    requires off + n <= |s|
    ensures ReadLE(s, off, n) == ReadLE(s[off..off + n], 0, n)
    decreases n
  {
    if n > 0 {
      var x := s[off..off + n];
      ReadSlice(s, off + 1, n - 1);
      ReadShift(x, 1, n - 1);
      assert x[1..] == s[off + 1..off + n];
    }
  }

  /** Encoding what was decoded gives the field's bytes back. */
  lemma {:induction false} EncodeRead(s: seq<u8>, off: nat, n: nat)
    requires off + n <= |s|
    ensures EncodeLE(ReadLE(s, off, n), n) == s[off..off + n]
    decreases n
  {
    if n > 0 {
      EncodeRead(s, off + 1, n - 1);
      var rest := ReadLE(s, off + 1, n - 1);
      var v := ReadLE(s, off, n);
      ByteSplit(s[off], rest);
      assert EncodeLE(v, n) == [s[off]] + EncodeLE(rest, n - 1);
      assert s[off..off + n] == [s[off]] + s[off + 1..off + n];
    }
  }

  /** The low byte and the rest of a value built from them. */
  lemma ByteSplit(b: u8, rest: nat)
    ensures (b + 256 * rest) % 256 == b && (b + 256 * rest) / 256 == rest
  {
  }

  /** A patched field reads back as the value written into it. */
  lemma ReadAfterPatch(s: seq<u8>, off: nat, v: nat, n: nat)
    requires off + n <= |s| && v < Pow256(n)
    ensures ReadLE(Patch(s, off, EncodeLE(v, n)), off, n) == v
  {
    var r := Patch(s, off, EncodeLE(v, n));
    ReadSlice(r, off, n);
    ReadEncode(v, n);
    assert r[off..off + n] == EncodeLE(v, n);
  }

  /** Writing a field's own value back leaves the buffer unchanged. */
  lemma PatchSameValue(s: seq<u8>, off: nat, n: nat)
    requires off + n <= |s|
    ensures Patch(s, off, EncodeLE(ReadLE(s, off, n), n)) == s
  {
    EncodeRead(s, off, n);
  }

  /** A field that does not overlap a patch reads the same after it. */
  lemma ReadOutsidePatch(s: seq<u8>, off: nat, w: seq<u8>, at: nat, n: nat)
    requires off + |w| <= |s| && at + n <= |s|
    requires at + n <= off || off + |w| <= at
    ensures ReadLE(Patch(s, off, w), at, n) == ReadLE(s, at, n)
  {
    var r := Patch(s, off, w);
    ReadSlice(r, at, n);
    ReadSlice(s, at, n);
    assert r[at..at + n] == s[at..at + n];
  }
}
