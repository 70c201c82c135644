/**
 Code points: the UTF-8 the parser writes (RFC 3629), and the UTF-16 escapes it
 reads (RFC 8259, section 7).
 */
module Unicode {
  import opened Bytes
  import opened Sequences
  import JsonText
  import opened ParseText
  import opened Grammar

  // --- UTF-8 -----------------------------------------------------------------------

  /** The code point that a UTF-8 sequence stands for (RFC 3629, section 3). */
  function DecodeUtf8(b: seq<Byte>): nat
    requires 1 <= |b| <= 4
  {
    if |b| == 1 then b[0] as int
    else if |b| == 2 then b[0] as int % 0x20 * 0x40 + b[1] as int % 0x40
    else if |b| == 3 then b[0] as int % 0x10 * 0x1000 + b[1] as int % 0x40 * 0x40 + b[2] as int % 0x40
    else b[0] as int % 0x08 * 0x40000 + b[1] as int % 0x40 * 0x1000 + b[2] as int % 0x40 * 0x40 + b[3] as int % 0x40
  }

  lemma FirstByte(mark: nat, n: nat, size: nat)
    requires (mark == 0xC0 && size == 0x20) || (mark == 0xE0 && size == 0x10) || (mark == 0xF0 && size == 0x08)
    requires n < size
    ensures mark + n < 256 && ByteOf(mark + n) as int % size == n
  {
  }

  /** A number from its groups of six bits. */
  lemma Regroup(n: nat)
    ensures n == n / 0x40 * 0x40 + n % 0x40
    ensures n == n / 0x1000 * 0x1000 + n / 0x40 % 0x40 * 0x40 + n % 0x40
    ensures n == n / 0x40000 * 0x40000 + n / 0x1000 % 0x40 * 0x1000 + n / 0x40 % 0x40 * 0x40 + n % 0x40
  {
    var a := n / 0x40;
    var b := a / 0x40;
    assert b == n / 0x1000 && b / 0x40 == n / 0x40000;
    assert n == a * 0x40 + n % 0x40 && a == b * 0x40 + a % 0x40 && b == b / 0x40 * 0x40 + b % 0x40;
  }

  /** The bytes that may stand in a UTF-8 form (RFC 3629, section 4): first ones by their length, and others. */
  ghost predicate Utf8Bytes(b: seq<Byte>)
  {
    && |b| > 0
    && (var first := b[0] as int;
        match |b|
        case 1 => first <= 0x7F
        case 2 => 0xC2 <= first <= 0xDF
        case 3 => 0xE0 <= first <= 0xEF
        case 4 => 0xF0 <= first <= 0xF4
        case _ => false)
    && forall i :: 1 <= i < |b| ==> 0x80 <= b[i] as int <= 0xBF
  }

  lemma ShortestForm(codepoint: nat)
    requires codepoint <= 0x10FFFF
    ensures Utf8Bytes(Utf8(codepoint))
    ensures |Utf8(codepoint)| == if codepoint <= 0x7F then 1 else if codepoint <= 0x7FF then 2
                                 else if codepoint <= 0xFFFF then 3 else 4
  {
  }

  /** A continuation byte holds six bits. */
  lemma SixBits(n: nat)
    ensures ByteOf(0x80 + n % 0x40) as int % 0x40 == n % 0x40
  {
  }

  /** Every code point comes back from its UTF-8 form, which is the shortest one. */
  lemma Utf8RoundTrip(codepoint: nat)
    requires codepoint <= 0x10FFFF
    ensures DecodeUtf8(Utf8(codepoint)) == codepoint && Utf8Bytes(Utf8(codepoint))
    ensures |Utf8(codepoint)| == if codepoint <= 0x7F then 1 else if codepoint <= 0x7FF then 2
                                 else if codepoint <= 0xFFFF then 3 else 4
  {
    hide Utf8Bytes;
    ShortestForm(codepoint);
    Regroup(codepoint);
    SixBits(codepoint);
    SixBits(codepoint / 0x40);
    SixBits(codepoint / 0x1000);
    if 0x80 <= codepoint < 0x800 {
      FirstByte(0xC0, codepoint / 0x40, 0x20);
    } else if 0x800 <= codepoint < 0x10000 {
      FirstByte(0xE0, codepoint / 0x1000, 0x10);
    } else if 0x10000 <= codepoint {
      FirstByte(0xF0, codepoint / 0x40000, 0x08);
    }
    hide ByteOf;
  }

  /** `\uXXXX` for a 16-bit number. */
  function Escape16(n: nat): CString
    requires n < 0x10000
  {
    ['\\', 'u', JsonText.HexDigit(n / 0x1000), JsonText.HexDigit(n / 0x100 % 0x10), JsonText.HexDigit(n / 0x10 % 0x10), JsonText.HexDigit(n % 0x10)]
  }

  /** How RFC 8259 (section 7) escapes a code point: beyond 16 bits as a surrogate pair. */
  function EscapeCodepoint(codepoint: nat): CString
    requires codepoint <= 0x10FFFF
  {
    if codepoint < 0x10000 then Escape16(codepoint)
    else Escape16(0xD800 + (codepoint - 0x10000) / 0x400) + Escape16(0xDC00 + (codepoint - 0x10000) % 0x400)
  }

  predicate IsSurrogate(n: nat)
  {
    0xD800 <= n <= 0xDFFF
  }

  /** The four digits of a 16-bit number. */
  lemma DigitsWrite(n: nat)
    requires n < 0x10000
    ensures Writes16(Escape16(n)[2..], n) && Escape16(n) == ['\\', 'u'] + Escape16(n)[2..]
  {
    JsonText.DigitIs(n / 0x1000);
    JsonText.DigitIs(n / 0x100 % 0x10);
    JsonText.DigitIs(n / 0x10 % 0x10);
    JsonText.DigitIs(n % 0x10);
    hide JsonText.HexDigit;
  }

  /** The escaped form as a piece of the grammar. */
  function EscapedPiece(codepoint: nat): Piece
    requires codepoint <= 0x10FFFF
  {
    if codepoint < 0x10000 then Unit(codepoint, Escape16(codepoint)[2..])
    else
      var rest := codepoint - 0x10000;
      Pair(codepoint, Escape16(0xD800 + rest / 0x400)[2..], Escape16(0xDC00 + rest % 0x400)[2..])
  }

  lemma EscapedIsPiece(codepoint: nat)
    requires codepoint <= 0x10FFFF && !IsSurrogate(codepoint)
    ensures IsPiece(EscapedPiece(codepoint)) && PieceText(EscapedPiece(codepoint)) == EscapeCodepoint(codepoint)
    ensures |EscapeCodepoint(codepoint)| == if codepoint < 0x10000 then 6 else 12
  {
    hide Writes16;
    if codepoint < 0x10000 {
      DigitsWrite(codepoint);
    } else {
      var rest := codepoint - 0x10000;
      var high, low := 0xD800 + rest / 0x400, 0xDC00 + rest % 0x400;
      DigitsWrite(high);
      DigitsWrite(low);
      assert |Escape16(high)| == |Escape16(low)| == 6;
      hide Escape16;
      AppendAssociates(Escape16(high), ['\\', 'u'], Escape16(low)[2..]);
    }
  }

  /** The escaped form of every code point that is not a surrogate is read back, alone or as a pair. */
  lemma CodepointRoundTrip(c: seq<Byte>, i: nat, codepoint: nat, e: nat)
    requires codepoint <= 0x10FFFF && !IsSurrogate(codepoint)
    requires At(c, i, EscapeCodepoint(codepoint)) && i + |EscapeCodepoint(codepoint)| <= e <= |c|
    ensures Utf16(c, i, e) == Some(Literal(codepoint, |EscapeCodepoint(codepoint)|))
    ensures DecodeUtf8(Utf8(codepoint)) == codepoint
  {
    var p := EscapedPiece(codepoint);
    assert p == if p.Unit? then Unit(codepoint, p.digits) else Pair(codepoint, p.high, p.low);
    assert p.Unit? <==> codepoint < 0x10000;
    hide *;
    Utf8RoundTrip(codepoint);
    EscapedIsPiece(codepoint);
    if p.Unit? {
      UnitReads(c, i, p, e);
    } else {
      PairReads(c, i, p, e);
    }
  }

  /** A half of a pair that stands alone is refused, whichever half it is. */
  lemma LoneSurrogate(c: seq<Byte>, i: nat, n: nat, e: nat)
    requires IsSurrogate(n) && At(c, i, Escape16(n)) && i + 6 <= e <= |c|
    requires n < 0xDC00 && i + 8 <= e ==> c[i + 6] != '\\' || c[i + 7] != 'u'
    ensures Utf16(c, i, e) == None
  {
    hide At, Hex4, Writes16, Escape16;
    DigitsWrite(n);
    UnitAt(c, i, Escape16(n)[2..], n);
  }
}
