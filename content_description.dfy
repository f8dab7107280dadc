// The Content Description Object: a 34-byte struct followed by five strings (title,
// author, copyright, description, rating). Each string is stored as little-endian UTF-16
// with a two-byte NUL terminator, and the struct announces its byte count in a 16-bit field.

module ContentDescription {
  import opened Bytes
  import opened Wrappers
  import opened AsfStruct
  import opened Utf16

  /** The five content properties, in the order the object stores them. */
  datatype Content = Content(
    title: seq<u16>, author: seq<u16>, copyright: seq<u16>, description: seq<u16>, rating: seq<u16>)

  datatype ContentError = StringTooLong

  /** Index of the title length field; the four other length fields follow it. */
  const TITLE_LENGTH: nat := 2

  /** The bytes one string takes: two per code unit and the terminator. */
  function StoredLength(s: seq<u16>): nat
  {
    2 * |s| + 2
  }

  /** `GetLength`: the fixed struct and every string with its terminator. */
  function ContentLength(c: Content): nat
  {
    Size(CONTENT_DESCRIPTION) + Sum(StoredLengths(Items(c)))
  }

  /** One string as `Serialize` writes it: its UTF-16 bytes, then the NUL terminator. */
  function StoredText(s: seq<u16>): (r: seq<u8>)
    ensures |r| == StoredLength(s)
  {
    GetBytes(s) + [0, 0]
  }

  /** Byte strings written one after another. */
  function Concat(pieces: seq<seq<u8>>): seq<u8>
  {
    if |pieces| == 0 then [] else pieces[0] + Concat(pieces[1..])
  }

  function Lengths(pieces: seq<seq<u8>>): (r: seq<nat>)
    ensures |r| == |pieces|
  {
    seq(|pieces|, i requires 0 <= i < |pieces| => |pieces[i]|)
  }

  function Sum(counts: seq<nat>): nat
  {
    if |counts| == 0 then 0 else counts[0] + Sum(counts[1..])
  }

  /** A concatenation is as long as its pieces together. */
  lemma {:induction false} ConcatLength(pieces: seq<seq<u8>>)
    ensures |Concat(pieces)| == Sum(Lengths(pieces))
    decreases |pieces|
  {
    if |pieces| > 0 {
      ConcatLength(pieces[1..]);
      assert Lengths(pieces)[1..] == Lengths(pieces[1..]);
    }
  }

  /** Each string with its terminator, in order. */
  function StoredPieces(items: seq<seq<u16>>): (r: seq<seq<u8>>)
    ensures |r| == |items|
  {
    seq(|items|, i requires 0 <= i < |items| => StoredText(items[i]))
  }

  /** The strings as `Serialize` writes them, one after another. */
  function StoredTexts(items: seq<seq<u16>>): seq<u8>
  {
    Concat(StoredPieces(items))
  }

  function StoredLengths(items: seq<seq<u16>>): (r: seq<nat>)
    ensures |r| == |items|
  {
    seq(|items|, i requires 0 <= i < |items| => StoredLength(items[i]))
  }

  /** The stored strings take as many bytes as their stored lengths add up to. */
  lemma StoredTextsLength(items: seq<seq<u16>>)
    ensures |StoredTexts(items)| == Sum(StoredLengths(items))
  {
    ConcatLength(StoredPieces(items));
    assert Lengths(StoredPieces(items)) == StoredLengths(items);
  }

  /** One string as the constructor reads it: `count` bytes decoded, NULs trimmed from both ends. */
  function ReadText(b: seq<u8>, off: nat, count: nat): (r: seq<u16>)
    ensures Untrimmed(r)
  {
    Trim(GetString(ReadPadded(b, off, count)))
  }

  /** Strings read one after another from `off`, each taking the next byte count. */
  function ReadTexts(b: seq<u8>, off: nat, counts: seq<nat>): (r: seq<seq<u16>>)
    ensures |r| == |counts|
    decreases |counts|
  {
    if |counts| == 0 then [] else [ReadText(b, off, counts[0])] + ReadTexts(b, off + counts[0], counts[1..])
  }

  function Items(c: Content): (r: seq<seq<u16>>)
    ensures |r| == 5
  {
    [c.title, c.author, c.copyright, c.description, c.rating]
  }

  /** The five length fields of a struct, in order. */
  function LengthFields(h: seq<FieldValue>): (r: seq<nat>)
    ensures |r| == 5
  {
    [NumField(h, TITLE_LENGTH), NumField(h, TITLE_LENGTH + 1), NumField(h, TITLE_LENGTH + 2),
     NumField(h, TITLE_LENGTH + 3), NumField(h, TITLE_LENGTH + 4)]
  }

  /** What the constructor leaves: the struct as read, the five strings, and the stream position. */
  datatype Parsed = Parsed(header: seq<FieldValue>, content: Content, end: nat)

  /**
   * The constructor reading the object at `pos`: the struct, then each string in turn, each
   * taking as many bytes as its length field says.
   */
  function ParseContent(b: seq<u8>, pos: nat): (r: Parsed)
    ensures Fits(CONTENT_DESCRIPTION, r.header)
    ensures r.end == pos + Size(CONTENT_DESCRIPTION) + Sum(LengthFields(r.header))
  {
    var h := ReadStruct(CONTENT_DESCRIPTION, b, pos);
    var t := ReadTexts(b, pos + Size(CONTENT_DESCRIPTION), LengthFields(h));
    Parsed(h, Content(t[0], t[1], t[2], t[3], t[4]), pos + Size(CONTENT_DESCRIPTION) + Sum(LengthFields(h)))
  }

  /**
   * The struct as `Serialize` writes it: the object size set to the object's length and each
   * length field to its string's stored length, cast to 16 bits.
   */
  function StoredHeader(h: seq<FieldValue>, c: Content): (r: seq<FieldValue>)
    requires Fits(CONTENT_DESCRIPTION, h)
    ensures Fits(CONTENT_DESCRIPTION, r)
  {
    Pow256Widths();
    [h[0], NumValue(Wrap64(ContentLength(c))),
     NumValue(Wrap16(StoredLength(c.title))), NumValue(Wrap16(StoredLength(c.author))),
     NumValue(Wrap16(StoredLength(c.copyright))), NumValue(Wrap16(StoredLength(c.description))),
     NumValue(Wrap16(StoredLength(c.rating)))]
  }

  /** `Serialize` as written: the length fields wrap for a string of 32767 code units or more. */
  function SerializeAsWritten(h: seq<FieldValue>, c: Content): (r: seq<u8>)
    requires Fits(CONTENT_DESCRIPTION, h)
    ensures |r| == ContentLength(c)
  {
    StoredTextsLength(Items(c));
    Encode(CONTENT_DESCRIPTION, StoredHeader(h, c)) + StoredTexts(Items(c))
  }

  /** Every string's stored length fits its 16-bit length field. */
  predicate LengthsFit(c: Content)
  {
    forall i :: 0 <= i < 5 ==> StoredLength(Items(c)[i]) < 0x1_0000
  }

  /**
   * `Serialize` with the length fields checked: a string whose stored length does not fit
   * 16 bits is refused rather than written with a wrapped length.
   */
  function Serialize(h: seq<FieldValue>, c: Content): (r: Result<seq<u8>, ContentError>)
    requires Fits(CONTENT_DESCRIPTION, h)
    ensures r.Ok? <==> LengthsFit(c)
    ensures r.Ok? ==> |r.value| == ContentLength(c)
  {
    if LengthsFit(c) then Ok(SerializeAsWritten(h, c)) else Err(StringTooLong)
  }

  /** A surrogate-free string is well formed. */
  lemma {:induction false} PlainWellFormed(s: seq<u16>)
    requires forall i :: 0 <= i < |s| ==> !IsSurrogate(s[i])
    ensures WellFormed(s)
    decreases |s|
  {
    if |s| > 0 {
      PlainWellFormed(s[1..]);
    }
  }

  /** A stored string reads back as itself. */
  lemma ReadStoredText(s: seq<u16>)
    requires WellFormed(s) && Untrimmed(s)
    ensures ReadText(StoredText(s), 0, StoredLength(s)) == s
  {
    var t := StoredText(s);
    ReadPaddedInside(t, 0, |t|);
    assert t[0..|t|] == t;
    assert ReadPadded(t, 0, |t|) == GetBytes(s) + [0, 0];
    TextRoundTrip(s);
  }

  lemma ReadTextsCons(b: seq<u8>, off: nat, counts: seq<nat>, next: nat, tail: seq<nat>)
    requires |counts| > 0 && counts[1..] == tail && next == off + counts[0]
    ensures ReadTexts(b, off, counts) == [ReadText(b, off, counts[0])] + ReadTexts(b, next, tail)
  {
    var rest := ReadTexts(b, off + counts[0], counts[1..]);
    assert ReadTexts(b, off, counts) == [ReadText(b, off, counts[0])] + rest;
    assert rest == ReadTexts(b, next, tail);
  }

  /** Each piece read back on its own. */
  function ReadEach(pieces: seq<seq<u8>>): (r: seq<seq<u16>>)
    ensures |r| == |pieces|
  {
    seq(|pieces|, i requires 0 <= i < |pieces| => ReadText(pieces[i], 0, |pieces[i]|))
  }

  /** The two halves of a stored concatenation. */
  lemma SliceSplit(b: seq<u8>, off: nat, x: seq<u8>, y: seq<u8>)
    requires off + |x + y| <= |b| && b[off..off + |x + y|] == x + y
    ensures b[off..off + |x|] == x
    ensures b[off + |x|..off + |x| + |y|] == y
  {
    var whole := b[off..off + |x + y|];
    assert b[off..off + |x|] == whole[..|x|];
    assert b[off + |x|..off + |x| + |y|] == whole[|x|..];
  }

  /** Pieces stored one after another, each of which reads back as a string, read back as those strings. */
  lemma {:induction false} ReadPieces(b: seq<u8>, off: nat, pieces: seq<seq<u8>>)
    requires off + |Concat(pieces)| <= |b| && b[off..off + |Concat(pieces)|] == Concat(pieces)
    ensures ReadTexts(b, off, Lengths(pieces)) == ReadEach(pieces)
    decreases |pieces|
  {
    var counts := Lengths(pieces);
    if |pieces| > 0 {
      var mid := off + |pieces[0]|;
      ConcatSplit(b, off, pieces);
      var head := ReadText(b, off, counts[0]);
      HeadRead(b, off, pieces);
      ReadPieces(b, mid, pieces[1..]);
      var tail := ReadTexts(b, mid, Lengths(pieces[1..]));
      ReadTextsCons(b, off, counts, mid, Lengths(pieces[1..]));
      assert ReadTexts(b, off, counts) == [head] + tail;
      EachCons(pieces, head, tail);
    } else {
      assert counts == [];
      assert ReadEach(pieces) == [];
    }
  }

  lemma ConcatSplit(b: seq<u8>, off: nat, pieces: seq<seq<u8>>)
    requires |pieces| > 0
    requires off + |Concat(pieces)| <= |b| && b[off..off + |Concat(pieces)|] == Concat(pieces)
    ensures off + |pieces[0]| + |Concat(pieces[1..])| <= |b|
    ensures b[off..off + |pieces[0]|] == pieces[0]
    ensures b[off + |pieces[0]|..off + |pieces[0]| + |Concat(pieces[1..])|] == Concat(pieces[1..])
  {
    assert Concat(pieces) == pieces[0] + Concat(pieces[1..]);
    SliceSplit(b, off, pieces[0], Concat(pieces[1..]));
  }

  lemma HeadRead(b: seq<u8>, off: nat, pieces: seq<seq<u8>>)
    requires |pieces| > 0
    requires off + |pieces[0]| <= |b| && b[off..off + |pieces[0]|] == pieces[0]
    ensures ReadText(b, off, Lengths(pieces)[0]) == ReadEach(pieces)[0]
  {
    var n := Lengths(pieces)[0];
    assert n == |pieces[0]|;
    ReadPaddedInside(b, off, n);
    assert ReadPadded(b, off, n) == pieces[0];
    ReadPaddedInside(pieces[0], 0, n);
    assert pieces[0][0..n] == pieces[0];
    assert ReadPadded(b, off, n) == ReadPadded(pieces[0], 0, n);
  }

  lemma EachCons(pieces: seq<seq<u8>>, head: seq<u16>, tail: seq<seq<u16>>)
    requires |pieces| > 0 && ReadEach(pieces)[0] == head && ReadEach(pieces[1..]) == tail
    ensures ReadEach(pieces) == [head] + tail
  {
    assert ReadEach(pieces)[1..] == ReadEach(pieces[1..]);
  }

  /** The length fields `Serialize` writes, when they fit, are the strings' stored lengths. */
  lemma StoredLengthFields(h: seq<FieldValue>, c: Content)
    requires Fits(CONTENT_DESCRIPTION, h) && LengthsFit(c)
    ensures LengthFields(StoredHeader(h, c)) == StoredLengths(Items(c))
  {
  }

  /**
   * Reading back what `Serialize` wrote gives the strings that were written, provided they
   * are well formed and have no NUL at either end (the constructor trims those); the
   * stream ends just after the object.
   */
  lemma ContentRoundTrip(h: seq<FieldValue>, c: Content, pre: seq<u8>, post: seq<u8>)
    requires Fits(CONTENT_DESCRIPTION, h)
    requires forall i :: 0 <= i < 5 ==> WellFormed(Items(c)[i]) && Untrimmed(Items(c)[i])
    requires Serialize(h, c).Ok?
    ensures var p := ParseContent(pre + Serialize(h, c).value + post, |pre|);
      p.content == c && p.header == StoredHeader(h, c) && p.end == |pre| + ContentLength(c)
  {
    var hd := StoredHeader(h, c);
    var e := Encode(CONTENT_DESCRIPTION, hd);
    var t := StoredTexts(Items(c));
    var b := pre + Serialize(h, c).value + post;
    assert Serialize(h, c).value == e + t;
    Regroup(pre, e, t, post);
    ReadStructEncoded(CONTENT_DESCRIPTION, hd, pre, t + post);
    var off := |pre| + Size(CONTENT_DESCRIPTION);
    MiddleSlice(pre + e, t, post);
    StoredLengthFields(h, c);
    var counts := LengthFields(hd);
    StoredTextsRead(b, off, c, counts);
    var texts := ReadTexts(b, off, counts);
    assert texts == Items(c);
    StoredTextsLength(Items(c));
  }

  lemma MiddleSlice(pre: seq<u8>, mid: seq<u8>, post: seq<u8>)
    ensures (pre + mid + post)[|pre|..|pre| + |mid|] == mid
  {
  }

  /** The stored strings, wherever they sit, read back as the content's strings. */
  lemma StoredTextsRead(b: seq<u8>, off: nat, c: Content, counts: seq<nat>)
    requires forall i :: 0 <= i < 5 ==> WellFormed(Items(c)[i]) && Untrimmed(Items(c)[i])
    requires counts == StoredLengths(Items(c))
    requires off + |StoredTexts(Items(c))| <= |b| && b[off..off + |StoredTexts(Items(c))|] == StoredTexts(Items(c))
    ensures ReadTexts(b, off, counts) == Items(c)
  {
    var pieces := StoredPieces(Items(c));
    forall i | 0 <= i < 5
      ensures ReadEach(pieces)[i] == Items(c)[i]
    {
      ReadStoredText(Items(c)[i]);
    }
    assert ReadEach(pieces) == Items(c);
    assert Lengths(pieces) == counts;
    ReadPieces(b, off, pieces);
  }

  /**
   * As written, a title of 32767 code units or more does not survive: its length field
   * wraps and the title read back is shorter than the one written.
   */
  lemma LengthWrapLosesTitle(h: seq<FieldValue>, c: Content)
    requires Fits(CONTENT_DESCRIPTION, h)
    requires StoredLength(c.title) >= 0x1_0000
    ensures ParseContent(SerializeAsWritten(h, c), 0).content.title != c.title
  {
    var b := SerializeAsWritten(h, c);
    var hd := StoredHeader(h, c);
    var t := StoredTexts(Items(c));
    assert b == [] + Encode(CONTENT_DESCRIPTION, hd) + t;
    ReadStructEncoded(CONTENT_DESCRIPTION, hd, [], t);
    var counts := LengthFields(hd);
    var n := counts[0];
    assert n == Wrap16(StoredLength(c.title));
    var off := Size(CONTENT_DESCRIPTION);
    ReadTextsCons(b, off, counts, off + n, counts[1..]);
    var title := ReadText(b, off, n);
    assert ParseContent(b, 0).content.title == title;
    var raw := ReadPadded(b, off, n);
    assert |title| <= |GetString(raw)| == (n + 1) / 2;
    WrapShortens(c.title, n);
    assert |title| < |c.title|;
    assert title != c.title;
  }

  /** A wrapped length field announces fewer code units than the string holds. */
  lemma WrapShortens(s: seq<u16>, n: nat)
    requires StoredLength(s) >= 0x1_0000 && n == Wrap16(StoredLength(s))
    ensures (n + 1) / 2 < |s|
  {
  }

  /** A title that shows it: 32767 letters A, well formed and without NULs. */
  lemma LongTitleExample()
    ensures var title := seq(32767, _ => 0x41);
      WellFormed(title) && Untrimmed(title) && StoredLength(title) == 0x1_0000
  {
    PlainWellFormed(seq(32767, _ => 0x41));
  }
}
