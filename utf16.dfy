// Little-endian UTF-16 text, as the header objects store their strings. A string is its
// sequence of UTF-16 code units. Decoding and encoding replace each unpaired surrogate by
// U+FFFD, and decoding an odd byte count ends with one U+FFFD for the last byte.

module Utf16 {
  import opened Bytes

  const REPLACEMENT: u16 := 0xFFFD

  predicate IsHighSurrogate(u: u16) { 0xD800 <= u <= 0xDBFF }
  predicate IsLowSurrogate(u: u16) { 0xDC00 <= u <= 0xDFFF }
  predicate IsSurrogate(u: u16) { IsHighSurrogate(u) || IsLowSurrogate(u) }

  /** The code units with every unpaired surrogate replaced by U+FFFD. */
  function Sanitize(s: seq<u16>): (r: seq<u16>)
    ensures |r| == |s|
    decreases |s|
  {
    if |s| == 0 then []
    else if IsHighSurrogate(s[0]) && |s| > 1 && IsLowSurrogate(s[1]) then [s[0], s[1]] + Sanitize(s[2..])
    else if IsSurrogate(s[0]) then [REPLACEMENT] + Sanitize(s[1..])
    else [s[0]] + Sanitize(s[1..])
  }

  /** A string whose surrogates are all paired: encoding keeps it as it is. */
  predicate WellFormed(s: seq<u16>) { Sanitize(s) == s }

  /** The code units of a byte sequence, two bytes each, low byte first; an odd last byte is dropped. */
  function Units(b: seq<u8>): (r: seq<u16>)
    ensures |r| == |b| / 2
    decreases |b|
  {
    if |b| < 2 then [] else [U16At(b, 0)] + Units(b[2..])
  }

  /** The two bytes of each code unit, low byte first. */
  function UnitBytes(s: seq<u16>): (r: seq<u8>)
    ensures |r| == 2 * |s|
  {
    if |s| == 0 then [] else LE16(s[0]) + UnitBytes(s[1..])
  }

  /** `Encoding.Unicode.GetString`: the text of a byte sequence. */
  function GetString(b: seq<u8>): (r: seq<u16>)
    ensures |r| == (|b| + 1) / 2
  {
    Sanitize(Units(b)) + (if |b| % 2 == 1 then [REPLACEMENT] else [])
  }

  /** `Encoding.Unicode.GetBytes`: two bytes per code unit, whatever the string holds. */
  function GetBytes(s: seq<u16>): (r: seq<u8>)
    ensures |r| == 2 * |s|
  {
    UnitBytes(Sanitize(s))
  }

  /** Leading NUL code units removed. */
  function TrimStart(s: seq<u16>): (r: seq<u16>)
    ensures |r| <= |s| && (|r| > 0 ==> r[0] != 0)
    ensures r == s[|s| - |r|..]
    decreases |s|
  {
    if |s| > 0 && s[0] == 0 then TrimStart(s[1..]) else s
  }

  /** Trailing NUL code units removed. */
  function TrimEnd(s: seq<u16>): (r: seq<u16>)
    ensures |r| <= |s| && (|r| > 0 ==> r[|r| - 1] != 0)
    ensures r == s[..|r|]
    decreases |s|
  {
    if |s| > 0 && s[|s| - 1] == 0 then TrimEnd(s[..|s| - 1]) else s
  }

  /** A string with no NUL at either end; trimming leaves it as it is. */
  predicate Untrimmed(s: seq<u16>)
  {
    |s| == 0 || (s[0] != 0 && s[|s| - 1] != 0)
  }

  /** `Trim('\0')`: NUL code units removed from both ends. */
  function Trim(s: seq<u16>): (r: seq<u16>)
    ensures Untrimmed(r)
  {
    TrimEnd(TrimStart(s))
  }

  /** Reading code units back from their bytes. */
  lemma {:induction false} UnitsOfBytes(s: seq<u16>)
    ensures Units(UnitBytes(s)) == s
  {
    if |s| > 0 {
      var b := UnitBytes(s);
      UnitsOfBytes(s[1..]);
      assert b[2..] == UnitBytes(s[1..]);
      assert U16At(b, 0) == s[0] by {
        assert b[..2] == LE16(s[0]);
        ReadSlice(b, 0, 2);
        ReadEncode(s[0], 2);
      }
    }
  }

  /** Units of a concatenation at an even boundary. */
  lemma {:induction false} UnitsAppend(a: seq<u8>, b: seq<u8>)
    requires |a| % 2 == 0
    ensures Units(a + b) == Units(a) + Units(b)
    decreases |a|
  {
    if |a| >= 2 {
      UnitsAppend(a[2..], b);
      assert (a + b)[2..] == a[2..] + b;
    } else {
      assert a + b == b;
    }
  }

  /** A code unit that is not a surrogate survives sanitising at the end of a string. */
  lemma {:induction false} SanitizeAppend(s: seq<u16>, c: u16)
    requires !IsSurrogate(c)
    ensures Sanitize(s + [c]) == Sanitize(s) + [c]
    decreases |s|
  {
    if |s| == 0 {
    } else if IsHighSurrogate(s[0]) && |s| > 1 && IsLowSurrogate(s[1]) {
      assert (s + [c])[2..] == s[2..] + [c];
      SanitizeAppend(s[2..], c);
    } else {
      assert (s + [c])[1..] == s[1..] + [c];
      SanitizeAppend(s[1..], c);
    }
  }

  /** Trimming a well-bounded string followed by one NUL gives the string back. */
  lemma TrimTerminated(s: seq<u16>)
    requires Untrimmed(s)
    ensures Trim(s + [0]) == s
  {
    if |s| == 0 {
      assert TrimStart([0]) == [];
    } else {
      var t := s + [0];
      assert TrimStart(t) == t;
      assert t[..|t| - 1] == s;
      assert TrimEnd(t) == TrimEnd(s);
      assert TrimEnd(s) == s;
    }
  }

  /**
   * A well-formed string with no NUL at either end, stored with its two-byte NUL terminator,
   * reads back as itself.
   */
  lemma TextRoundTrip(s: seq<u16>)
    requires WellFormed(s) && Untrimmed(s)
    ensures Trim(GetString(GetBytes(s) + [0, 0])) == s
  {
    var e := GetBytes(s);
    assert e == UnitBytes(s);
    assert [0, 0] == UnitBytes([0]) by {
      assert LE16(0) == [0, 0];
    }
    UnitsAppend(e, [0, 0]);
    UnitsOfBytes(s);
    UnitsOfBytes([0]);
    assert Units(e + [0, 0]) == s + [0];
    SanitizeAppend(s, 0);
    assert GetString(e + [0, 0]) == s + [0];
    TrimTerminated(s);
  }
}
