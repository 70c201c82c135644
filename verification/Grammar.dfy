/**
 JSON texts as RFC 8259 writes them, with any blanks and any way to write a
 character, and the theorem that the parser reads every one of them.
 */
module Grammar {
  import opened Bytes
  import opened Sequences
  import opened Json
  import opened ParseText

  // --- Strings (section 7) --------------------------------------------------------

  /** A way to write a character of a string; a pair stands for one beyond 16 bits. */
  datatype Piece =
    | Plain(c: CChar)
    | Short(index: nat)
    | Unit(code: nat, digits: CString)
    | Pair(codepoint: nat, high: CString, low: CString)

  /** What follows the backslash in the two-character escapes, and the code points they stand for. */
  const SHORT: CString := "\"\\/bfnrt"
  const SHORT_MEANT: seq<nat> := [0x22, 0x5C, 0x2F, 0x08, 0x0C, 0x0A, 0x0D, 0x09]

  /** A hexadecimal digit of either case. */
  predicate IsHex(c: CChar, d: nat)
  {
    d < 16 && (c == "0123456789abcdef"[d] || c == "0123456789ABCDEF"[d])
  }

  /** Four digits write a 16-bit number. */
  predicate Writes16(digits: CString, n: nat)
  {
    && |digits| == 4 && n < 0x1_0000
    && IsHex(digits[0], n / 0x1000) && IsHex(digits[1], n / 0x100 % 0x10)
    && IsHex(digits[2], n / 0x10 % 0x10) && IsHex(digits[3], n % 0x10)
  }

  predicate IsPiece(p: Piece)
  {
    match p
    case Plain(c) => c != '\"' && c != '\\'
    case Short(index) => index < 8
    case Unit(code, digits) => Writes16(digits, code) && !(0xD800 <= code <= 0xDFFF)
    case Pair(codepoint, high, low) =>
      && 0x1_0000 <= codepoint <= 0x10_FFFF
      && Writes16(high, 0xD800 + (codepoint - 0x1_0000) / 0x400)
      && Writes16(low, 0xDC00 + (codepoint - 0x1_0000) % 0x400)
  }

  function PieceText(p: Piece): CString
  {
    match p
    case Plain(c) => [c]
    case Short(index) => if index < 8 then ['\\', SHORT[index]] else []
    case Unit(_, digits) => ['\\', 'u'] + digits
    case Pair(_, high, low) => ['\\', 'u'] + high + ['\\', 'u'] + low
  }

  /** What a piece stands for: the byte itself, or the UTF-8 form of a code point. */
  function PieceBytes(p: Piece): seq<Byte>
    requires IsPiece(p)
  {
    match p
    case Plain(c) => [c]
    case Short(index) => [ByteOf(SHORT_MEANT[index])]
    case Unit(code, _) => Utf8(code)
    case Pair(codepoint, _, _) => Utf8(codepoint)
  }

  predicate ArePieces(ps: seq<Piece>)
  {
    forall p | p in ps :: IsPiece(p)
  }

  function PiecesText(ps: seq<Piece>): CString
  {
    if ps == [] then [] else PieceText(ps[0]) + PiecesText(ps[1..])
  }

  function PiecesBytes(ps: seq<Piece>): seq<Byte>
    requires ArePieces(ps)
  {
    if ps == [] then [] else PieceBytes(ps[0]) + PiecesBytes(ps[1..])
  }

  // --- Values (sections 2 to 6) -------------------------------------------------------

  /** An element of an array with the blanks around it. */
  datatype Slot = Slot(before: CString, value: Spelled, after: CString)

  /** A member of an object with the blanks before its name, around the colon and behind its value. */
  datatype Field = Field(before: CString, name: seq<Piece>, middle: CString, gap: CString, value: Spelled, after: CString)

  /** A value as it is written; `blank` is what stands in an array or object that is empty. */
  datatype Spelled =
    | Word(word: Json)
    | Numeral(negative: bool, digits: CString)
    | Quote(pieces: seq<Piece>)
    | List(blank: CString, slots: seq<Slot>)
    | Record(blank: CString, fields: seq<Field>)

  /** Blanks are the four of section 2 and, as the code has it, all other control characters. */
  predicate IsBlank(s: CString)
  {
    forall c | c in s :: c <= ' '
  }

  function NumeralValue(negative: bool, digits: CString): int
    requires forall i :: 0 <= i < |digits| ==> IsDigit(digits[i])
  {
    if negative then -(DigitsValue(0, digits) as int) else DigitsValue(0, digits)
  }

  /** Integers of 32 bits, leading zeros being allowed, and at most 1000 levels of nesting. */
  predicate IsSpelled(w: Spelled, depth: nat)
    decreases w
  {
    match w
    case Word(word) => word.Null? || word.False? || word.True?
    case Numeral(negative, digits) =>
      && digits != [] && (forall i :: 0 <= i < |digits| ==> IsDigit(digits[i]))
      && -0x8000_0000 <= NumeralValue(negative, digits) <= 0x7FFF_FFFF
    case Quote(pieces) => ArePieces(pieces)
    case List(blank, slots) =>
      && depth < 1000 && IsBlank(blank)
      && forall s | s in slots :: IsBlank(s.before) && IsBlank(s.after) && IsSpelled(s.value, depth + 1)
    case Record(blank, fields) =>
      && depth < 1000 && IsBlank(blank)
      && forall f | f in fields ::
           && IsBlank(f.before) && IsBlank(f.middle) && IsBlank(f.gap) && IsBlank(f.after)
           && ArePieces(f.name) && IsSpelled(f.value, depth + 1)
  }

  function Enclosed(ps: seq<Piece>): CString
  {
    ['\"'] + (PiecesText(ps) + ['\"'])
  }

  /** The text of a value. */
  function Spell(w: Spelled): CString
    decreases w, 0
  {
    match w
    case Word(word) => if word.Null? then "null" else if word.False? then "false" else "true"
    case Numeral(negative, digits) => (if negative then ['-'] else []) + digits
    case Quote(pieces) => Enclosed(pieces)
    case List(blank, slots) => ['['] + ((if slots == [] then blank else SlotsText(slots)) + [']'])
    case Record(blank, fields) => ['{'] + ((if fields == [] then blank else FieldsText(fields)) + ['}'])
  }

  /** Elements with commas between them. */
  function SlotsText(slots: seq<Slot>): CString
    decreases slots, 0
  {
    if slots == [] then [] else SlotText(slots[0], |slots| > 1) + SlotsText(slots[1..])
  }

  function SlotText(s: Slot, more: bool): CString
    decreases s, 0
  {
    s.before + (Spell(s.value) + (s.after + if more then [','] else []))
  }

  function FieldsText(fields: seq<Field>): CString
    decreases fields, 0
  {
    if fields == [] then [] else FieldText(fields[0], |fields| > 1) + FieldsText(fields[1..])
  }

  function FieldText(f: Field, more: bool): CString
    decreases f, 0
  {
    f.before + (Enclosed(f.name) + (f.middle + ([':'] + (f.gap + (Spell(f.value) + (f.after + if more then [','] else []))))))
  }

  /** The tree a value stands for; strings are C strings, which end at the first NUL. */
  function Meant(w: Spelled, depth: nat): Json
    requires IsSpelled(w, depth)
    decreases w, 0
  {
    match w
    case Word(word) => word
    case Numeral(negative, digits) => Number(NumeralValue(negative, digits))
    case Quote(pieces) => String(StringIn(PiecesBytes(pieces)))
    case List(_, slots) => Array(MeantItems(slots, depth + 1))
    case Record(_, fields) => Object(MeantMembers(fields, depth + 1))
  }

  predicate SlotsFit(slots: seq<Slot>, depth: nat)
  {
    forall s | s in slots :: IsBlank(s.before) && IsBlank(s.after) && IsSpelled(s.value, depth)
  }

  predicate FieldsFit(fields: seq<Field>, depth: nat)
  {
    forall f | f in fields ::
      && IsBlank(f.before) && IsBlank(f.middle) && IsBlank(f.gap) && IsBlank(f.after)
      && ArePieces(f.name) && IsSpelled(f.value, depth)
  }

  function MeantItems(slots: seq<Slot>, depth: nat): (r: seq<Json>)
    requires SlotsFit(slots, depth)
    ensures |r| == |slots| && forall i :: 0 <= i < |slots| ==> slots[i] in slots && r[i] == Meant(slots[i].value, depth)
    decreases slots, 0
  {
    if slots == [] then [] else [Meant(slots[0].value, depth)] + MeantItems(slots[1..], depth)
  }

  function MeantMembers(fields: seq<Field>, depth: nat): (r: seq<Entry<Json>>)
    requires FieldsFit(fields, depth)
    ensures |r| == |fields|
    decreases fields, 0
  {
    if fields == [] then []
    else
      var f := fields[0];
      [Entry(StringIn(PiecesBytes(f.name)), Meant(f.value, depth))] + MeantMembers(fields[1..], depth)
  }

  // --- Texts in a buffer ------------------------------------------------------------

  lemma AtParts(c: seq<Byte>, o: nat, x: CString, y: CString)
    requires At(c, o, x + y)
    ensures At(c, o, x) && At(c, o + |x|, y)
    ensures o + |x| + |y| <= |c|
  {
    assert c[o..o + |x|] == c[o..o + |x + y|][..|x|];
    assert c[o + |x|..o + |x + y|] == c[o..o + |x + y|][|x|..];
  }

  lemma AtByte(c: seq<Byte>, o: nat, x: CString, i: nat)
    requires At(c, o, x) && i < |x|
    ensures o + |x| <= |c| && c[o + i] == x[i]
  {
    assert c[o..o + |x|][i] == c[o + i];
  }

  lemma SeesFirst(c: seq<Byte>, o: nat, x: CString)
    requires At(c, o, x) && x != []
    ensures Sees(c, o, x[0])
  {
    AtByte(c, o, x, 0);
  }

  lemma {:induction false} SkipBlanks(c: seq<Byte>, o: nat, n: nat)
    requires o + n < |c| && c[o + n] > ' '
    requires forall i :: o <= i < o + n ==> c[i] <= ' '
    ensures SkipWhitespace(c, o) == o + n
    decreases n
  {
    if n > 0 {
      SkipBlanks(c, o + 1, n - 1);
    }
  }

  /** Blanks at `e`, and the byte behind them. */
  lemma BlanksAt(c: seq<Byte>, e: nat, blanks: CString, rest: CString)
    requires At(c, e, blanks + rest) && rest != [] && rest[0] > ' ' && IsBlank(blanks)
    ensures SkipWhitespace(c, e) == e + |blanks| < |c| && c[e + |blanks|] == rest[0]
    ensures SkipWhitespace(c, e + |blanks|) == e + |blanks| && At(c, e + |blanks|, rest)
    ensures c[e] <= ' ' || c[e] == rest[0]
  {
    AtParts(c, e, blanks, rest);
    AtByte(c, e + |blanks|, rest, 0);
    forall i | e <= i < e + |blanks| ensures c[i] <= ' ' {
      AtByte(c, e, blanks, i - e);
      assert blanks[i - e] in blanks;
    }
    hide At;
    SkipBlanks(c, e, |blanks|);
    SkipBlanks(c, e + |blanks|, 0);
  }

  // --- Reading strings ---------------------------------------------------------------

  lemma HexIs(c: CChar, d: nat)
    requires IsHex(c, d)
    ensures HexValue(c) == Some(d) && c != '\"' && c != '\\'
  {
  }

  lemma FourDigits(n: nat)
    ensures n == n / 0x1000 * 0x1000 + n / 0x100 % 0x10 * 0x100 + n / 0x10 % 0x10 * 0x10 + n % 0x10
  {
    var a := n / 0x10;
    var b := a / 0x10;
    assert b == n / 0x100 && b / 0x10 == n / 0x1000;
    assert n == a * 0x10 + n % 0x10 && a == b * 0x10 + a % 0x10 && b == b / 0x10 * 0x10 + b % 0x10;
  }

  lemma Hex4Reads(c: seq<Byte>, i: nat, digits: CString, n: nat)
    requires At(c, i, digits) && Writes16(digits, n)
    ensures i + 4 <= |c| && Hex4(c, i) == n && ClosingQuote(c, i) == ClosingQuote(c, i + 4)
  {
    AtByte(c, i, digits, 0);
    AtByte(c, i, digits, 1);
    AtByte(c, i, digits, 2);
    AtByte(c, i, digits, 3);
    HexIs(digits[0], n / 0x1000);
    HexIs(digits[1], n / 0x100 % 0x10);
    HexIs(digits[2], n / 0x10 % 0x10);
    HexIs(digits[3], n % 0x10);
    hide At, IsHex, HexValue;
    FourDigits(n);
    assert ClosingQuote(c, i) == ClosingQuote(c, i + 1) == ClosingQuote(c, i + 2);
    assert ClosingQuote(c, i + 2) == ClosingQuote(c, i + 3) == ClosingQuote(c, i + 4);
  }

  /** `\uXXXX` is passed over when the end of the string is looked for. */
  lemma UnitAt(c: seq<Byte>, i: nat, digits: CString, n: nat)
    requires At(c, i, ['\\', 'u'] + digits) && Writes16(digits, n)
    ensures i + 6 <= |c| && c[i] == '\\' && c[i + 1] == 'u' && Hex4(c, i + 2) == n
    ensures ClosingQuote(c, i) == ClosingQuote(c, i + 6)
  {
    AtParts(c, i, ['\\', 'u'], digits);
    AtByte(c, i, ['\\', 'u'], 0);
    AtByte(c, i, ['\\', 'u'], 1);
    hide At, Writes16, Hex4;
    Hex4Reads(c, i + 2, digits, n);
    assert ClosingQuote(c, i) == ClosingQuote(c, i + 2);
  }

  /** The two halves of a pair. */
  lemma Halves(rest: nat)
    requires rest < 0x10_0000
    ensures var high, low := 0xD800 + rest / 0x400, 0xDC00 + rest % 0x400;
      && 0xD800 <= high <= 0xDBFF && 0xDC00 <= low <= 0xDFFF
      && high % 0x400 * 0x400 + low % 0x400 == rest
  {
    var h, l := rest / 0x400, rest % 0x400;
    assert (0xD800 + h) % 0x400 == h;
    assert (0xDC00 + l) % 0x400 == l;
  }

  lemma PairReads(c: seq<Byte>, i: nat, p: Piece, e: nat)
    requires p.Pair? && IsPiece(p) && At(c, i, PieceText(p)) && i + 12 <= e <= |c|
    ensures |PieceText(p)| == 12 && c[i] == '\\' && c[i + 1] == 'u'
    ensures Utf16(c, i, e) == Some(Literal(p.codepoint, 12)) && ClosingQuote(c, i) == ClosingQuote(c, i + 12)
  {
    var high, low := PairText(p);
    hide *;
    HalvesRead(c, i, p.high, p.low, high, low, e);
  }

  lemma HalvesRead(c: seq<Byte>, i: nat, first: CString, second: CString, high: nat, low: nat, e: nat)
    requires Writes16(first, high) && Writes16(second, low) && i + 12 <= e <= |c|
    requires At(c, i, (['\\', 'u'] + first) + (['\\', 'u'] + second))
    requires 0xD800 <= high <= 0xDBFF && 0xDC00 <= low <= 0xDFFF
    ensures c[i] == '\\' && c[i + 1] == 'u' && ClosingQuote(c, i) == ClosingQuote(c, i + 12)
    ensures Utf16(c, i, e) == Some(Literal(0x1_0000 + high % 0x400 * 0x400 + low % 0x400, 12))
  {
    assert |first| == |second| == 4;
    hide At, Writes16, Hex4, ClosingQuote, Utf16;
    AtParts(c, i, ['\\', 'u'] + first, ['\\', 'u'] + second);
    UnitAt(c, i, first, high);
    UnitAt(c, i + 6, second, low);
    PairMeans(c, i, e, high, low);
  }

  lemma PairLength(p: Piece)
    requires p.Pair? && IsPiece(p)
    ensures |PieceText(p)| == 12
  {
  }

  lemma PairText(p: Piece) returns (high: nat, low: nat)
    requires p.Pair? && IsPiece(p)
    ensures |PieceText(p)| == 12 && Writes16(p.high, high) && Writes16(p.low, low)
    ensures 0xD800 <= high <= 0xDBFF && 0xDC00 <= low <= 0xDFFF
    ensures 0x1_0000 + high % 0x400 * 0x400 + low % 0x400 == p.codepoint
    ensures PieceText(p) == (['\\', 'u'] + p.high) + (['\\', 'u'] + p.low)
  {
    var rest := p.codepoint - 0x1_0000;
    high, low := 0xD800 + rest / 0x400, 0xDC00 + rest % 0x400;
    Halves(rest);
    assert |p.high| == |p.low| == 4;
    hide Writes16;
  }

  lemma PairMeans(c: seq<Byte>, i: nat, e: nat, high: nat, low: nat)
    requires i + 12 <= e <= |c| && Hex4(c, i + 2) == high && Hex4(c, i + 8) == low
    requires c[i + 6] == '\\' && c[i + 7] == 'u' && 0xD800 <= high <= 0xDBFF && 0xDC00 <= low <= 0xDFFF
    ensures Utf16(c, i, e) == Some(Literal(0x1_0000 + high % 0x400 * 0x400 + low % 0x400, 12))
  {
    hide Hex4;
  }

  lemma ShortReads(index: nat)
    requires index < 8
    ensures SHORT[index] != 'u' && SimpleEscape(SHORT[index]) == Some(ByteOf(SHORT_MEANT[index]))
  {
  }

  /** A piece is passed over when the end of the string is looked for, and decodes to what it stands for. */
  lemma PieceReads(c: seq<Byte>, i: nat, p: Piece, e: nat)
    requires IsPiece(p) && At(c, i, PieceText(p)) && i + |PieceText(p)| <= e < |c|
    ensures |PieceText(p)| > 0 && ClosingQuote(c, i) == ClosingQuote(c, i + |PieceText(p)|)
    ensures DecodeString(c, i, e) == Then(PieceBytes(p), DecodeString(c, i + |PieceText(p)|, e))
  {
    hide At, Hex4, Utf8, Writes16, SimpleEscape, Utf16;
    match p
    case Plain(b) =>
      AtByte(c, i, PieceText(p), 0);
    case Short(index) =>
      ShortReads(index);
      AtByte(c, i, PieceText(p), 0);
      AtByte(c, i, PieceText(p), 1);
    case Unit(code, digits) =>
      assert |PieceText(p)| == 6 by { UnitLength(p); }
      UnitReads(c, i, p, e);
    case Pair(_, _, _) =>
      PairLength(p);
      PairReads(c, i, p, e);
  }

  lemma UnitLength(p: Piece)
    requires p.Unit? && IsPiece(p)
    ensures |PieceText(p)| == 6
  {
  }

  lemma UnitReads(c: seq<Byte>, i: nat, p: Piece, e: nat)
    requires p.Unit? && IsPiece(p) && At(c, i, PieceText(p)) && i + 6 <= e <= |c|
    ensures |PieceText(p)| == 6 && c[i] == '\\' && c[i + 1] == 'u'
    ensures Utf16(c, i, e) == Some(Literal(p.code, 6)) && ClosingQuote(c, i) == ClosingQuote(c, i + 6)
  {
    UnitLength(p);
    hide At, Hex4, Writes16, ClosingQuote;
    UnitAt(c, i, p.digits, p.code);
  }

  lemma EndReads(c: seq<Byte>, i: nat)
    requires Sees(c, i, '\"')
    ensures ClosingQuote(c, i) == Some(i) && DecodeString(c, i, i) == Some([])
  {
  }

  lemma {:induction false} PiecesRead(c: seq<Byte>, i: nat, ps: seq<Piece>)
    requires ArePieces(ps) && At(c, i, PiecesText(ps)) && Sees(c, i + |PiecesText(ps)|, '\"')
    ensures ClosingQuote(c, i) == Some(i + |PiecesText(ps)|)
    ensures DecodeString(c, i, i + |PiecesText(ps)|) == Some(PiecesBytes(ps))
    decreases |ps|
  {
    hide ClosingQuote, DecodeString, At, PieceText, PieceBytes, IsPiece;
    if ps == [] {
      EndReads(c, i);
    } else {
      var t := PieceText(ps[0]);
      AtParts(c, i, t, PiecesText(ps[1..]));
      PiecesRead(c, i + |t|, ps[1..]);
      PieceReads(c, i, ps[0], i + |PiecesText(ps)|);
    }
  }

  lemma QuotedReads(c: seq<Byte>, o: nat, ps: seq<Piece>)
    requires ArePieces(ps) && At(c, o, Enclosed(ps))
    ensures Sees(c, o, '\"') && ParseString(c, o) == Parsed(StringIn(PiecesBytes(ps)), o + |Enclosed(ps)|)
  {
    hide PiecesText, ClosingQuote, DecodeString, At, IsPiece;
    AtParts(c, o, ['\"'], PiecesText(ps) + ['\"']);
    AtParts(c, o + 1, PiecesText(ps), ['\"']);
    AtByte(c, o, ['\"'], 0);
    AtByte(c, o + 1 + |PiecesText(ps)|, ['\"'], 0);
    PiecesRead(c, o + 1, ps);
  }

  // --- Reading numbers ------------------------------------------------------------------

  lemma {:induction false} DigitsEndIs(c: seq<Byte>, o: nat, e: nat)
    requires o <= e <= |c| && (e < |c| ==> !IsDigit(c[e]))
    requires forall i :: o <= i < e ==> IsDigit(c[i])
    ensures DigitsEnd(c, o) == e
    decreases e - o
  {
    if o < e {
      DigitsEndIs(c, o + 1, e);
    }
  }

  /** A number ends here. */
  predicate Stops(c: seq<Byte>, o: nat)
  {
    o >= |c| || !IsNumberChar(c[o])
  }

  lemma AtDigits(c: seq<Byte>, o: nat, t: CString)
    requires At(c, o, t) && forall i :: 0 <= i < |t| ==> IsDigit(t[i])
    ensures forall i :: o <= i < o + |t| ==> IsDigit(c[i])
    ensures c[o..o + |t|] == t
  {
    forall i | o <= i < o + |t| ensures IsDigit(c[i]) {
      AtByte(c, o, t, i - o);
    }
  }

  lemma NumeralReads(c: seq<Byte>, o: nat, negative: bool, digits: CString)
    requires IsSpelled(Numeral(negative, digits), 0)
    requires At(c, o, Spell(Numeral(negative, digits))) && Stops(c, o + |Spell(Numeral(negative, digits))|)
    ensures ParseNumber(c, o) == Parsed(Number(NumeralValue(negative, digits)), o + |Spell(Numeral(negative, digits))|)
    ensures o < |c| && (c[o] == '-' || IsDigit(c[o]))
  {
    hide DigitsEnd, DigitsValue, At;
    var s := if negative then o + 1 else o;
    AtParts(c, o, if negative then ['-'] else [], digits);
    if negative {
      AtByte(c, o, ['-'], 0);
    }
    AtDigits(c, s, digits);
    DigitsEndIs(c, s, s + |digits|);
    assert IsDigit(c[s]);
  }

  // --- How values begin -------------------------------------------------------------------

  lemma NotWord(c: seq<Byte>, o: nat, s: CString)
    requires s != [] && (o >= |c| || c[o] != s[0])
    ensures !At(c, o, s)
  {
    if o + |s| <= |c| {
      assert c[o..o + |s|][0] == c[o];
    }
  }

  lemma NoWord(c: seq<Byte>, o: nat)
    requires o < |c| && c[o] != 'n' && c[o] != 'f' && c[o] != 't'
    ensures !At(c, o, "null") && !At(c, o, "false") && !At(c, o, "true")
  {
    NotWord(c, o, "null");
    NotWord(c, o, "false");
    NotWord(c, o, "true");
  }

  lemma WordReads(c: seq<Byte>, o: nat, depth: nat)
    ensures At(c, o, "null") ==> ParseValue(c, o, depth) == Parsed(Null, o + 4)
    ensures At(c, o, "false") ==> ParseValue(c, o, depth) == Parsed(False, o + 5)
    ensures At(c, o, "true") ==> ParseValue(c, o, depth) == Parsed(True, o + 4)
  {
    if At(c, o, "false") {
      AtByte(c, o, "false", 0);
      NotWord(c, o, "null");
    }
    if At(c, o, "true") {
      AtByte(c, o, "true", 0);
      NotWord(c, o, "null");
      NotWord(c, o, "false");
    }
  }

  lemma NumberAt(c: seq<Byte>, o: nat, depth: nat)
    requires o < |c| && (c[o] == '-' || IsDigit(c[o]))
    ensures ParseValue(c, o, depth) == ParseNumber(c, o)
  {
    hide At, ParseNumber;
    NoWord(c, o);
  }

  lemma StringAt(c: seq<Byte>, o: nat, depth: nat, s: CString, end: nat)
    requires Sees(c, o, '\"') && ParseString(c, o) == Parsed(s, end)
    ensures ParseValue(c, o, depth) == Parsed(String(s), end)
  {
    hide At, ParseString;
    NoWord(c, o);
  }

  lemma ArrayAt(c: seq<Byte>, o: nat, depth: nat, s: nat, items: seq<Json>, end: nat)
    requires Sees(c, o, '[') && depth < 1000 && SkipWhitespace(c, o + 1) == s < |c|
    requires if c[s] == ']' then items == [] && end == s + 1
             else ParseElements(c, s - 1, depth + 1) == Parsed(items, end)
    ensures ParseValue(c, o, depth) == Parsed(Array(items), end)
  {
    hide At, SkipWhitespace, ParseElements;
    NoWord(c, o);
    assert ParseArray(c, o, depth) == Parsed(Array(items), end);
  }

  lemma ObjectAt(c: seq<Byte>, o: nat, depth: nat, s: nat, ms: seq<Entry<Json>>, end: nat)
    requires Sees(c, o, '{') && depth < 1000 && SkipWhitespace(c, o + 1) == s < |c|
    requires if c[s] == '}' then ms == [] && end == s + 1
             else ParseMembers(c, s - 1, depth + 1) == Parsed(ms, end)
    ensures ParseValue(c, o, depth) == Parsed(Object(ms), end)
  {
    hide At, SkipWhitespace, ParseMembers;
    NoWord(c, o);
    assert ParseObject(c, o, depth) == Parsed(Object(ms), end);
  }

  /** The first byte of a value, which is neither a blank nor a closing bracket. */
  lemma SpellBegins(w: Spelled, depth: nat)
    requires IsSpelled(w, depth)
    ensures Spell(w) != [] && ' ' < Spell(w)[0] < '\U{0080}' && Spell(w)[0] != ']'
  {
    hide SlotsText, FieldsText, PiecesText;
  }

  // --- Reading values ------------------------------------------------------------------------

  /** A value whose text stands at `o` is read, and nothing behind it. */
  lemma {:induction false} ValueReads(w: Spelled, depth: nat, c: seq<Byte>, o: nat)
    requires IsSpelled(w, depth) && At(c, o, Spell(w)) && Stops(c, o + |Spell(w)|)
    ensures ParseValue(c, o, depth) == Parsed(Meant(w, depth), o + |Spell(w)|)
    decreases w, 1
  {
    hide At, ParseValue, ParseNumber, ParseString, Enclosed, SlotsText, FieldsText, Stops;
    match w
    case Word(word) => WordReads(c, o, depth);
    case Numeral(negative, digits) =>
      NumeralReads(c, o, negative, digits);
      NumberAt(c, o, depth);
    case Quote(ps) =>
      QuotedReads(c, o, ps);
      StringAt(c, o, depth, StringIn(PiecesBytes(ps)), o + |Enclosed(ps)|);
    case List(blank, slots) => ListReads(blank, slots, depth, c, o);
    case Record(blank, fields) => RecordReads(blank, fields, depth, c, o);
  }

  lemma {:induction false} ListReads(blank: CString, slots: seq<Slot>, depth: nat, c: seq<Byte>, o: nat)
    requires IsSpelled(List(blank, slots), depth) && At(c, o, Spell(List(blank, slots)))
    ensures ParseValue(c, o, depth) == Parsed(Array(MeantItems(slots, depth + 1)), o + |Spell(List(blank, slots))|)
    decreases slots, 1
  {
    ListFits(blank, slots, depth);
    hide *;
    if slots == [] {
      EmptyReads(c, o, blank, depth);
    } else {
      AtParts(c, o, ['['], SlotsText(slots) + [']']);
      SeesFirst(c, o, ['[']);
      var s := FirstSlot(slots, depth + 1, c, o + 1);
      SlotsRead(slots, depth + 1, c, s - 1, o + 1);
      ArrayAt(c, o, depth, s, MeantItems(slots, depth + 1), o + |SlotsText(slots)| + 2);
    }
  }

  /** Brackets or braces with nothing but blanks between them. */
  lemma EmptyReads(c: seq<Byte>, o: nat, blank: CString, depth: nat)
    requires depth < 1000 && IsBlank(blank)
    ensures At(c, o, ['['] + (blank + [']'])) ==> ParseValue(c, o, depth) == Parsed(Array([]), o + |blank| + 2)
    ensures At(c, o, ['{'] + (blank + ['}'])) ==> ParseValue(c, o, depth) == Parsed(Object([]), o + |blank| + 2)
  {
    hide *;
    if At(c, o, ['['] + (blank + [']'])) {
      AtParts(c, o, ['['], blank + [']']);
      SeesFirst(c, o, ['[']);
      BlanksAt(c, o + 1, blank, [']']);
      ArrayAt(c, o, depth, o + 1 + |blank|, [], o + |blank| + 2);
    }
    if At(c, o, ['{'] + (blank + ['}'])) {
      AtParts(c, o, ['{'], blank + ['}']);
      SeesFirst(c, o, ['{']);
      BlanksAt(c, o + 1, blank, ['}']);
      ObjectAt(c, o, depth, o + 1 + |blank|, [], o + |blank| + 2);
    }
  }

  lemma ListFits(blank: CString, slots: seq<Slot>, depth: nat)
    requires IsSpelled(List(blank, slots), depth)
    ensures depth < 1000 && IsBlank(blank) && SlotsFit(slots, depth + 1)
    ensures slots == [] ==> Spell(List(blank, slots)) == ['['] + (blank + [']']) && MeantItems(slots, depth + 1) == []
    ensures slots != [] ==> Spell(List(blank, slots)) == ['['] + (SlotsText(slots) + [']'])
  {
    hide IsBlank, SlotsText;
  }

  /** What follows an element: a comma and more elements, or nothing; then the bracket. */
  function SlotsTail(slots: seq<Slot>): CString
    requires slots != []
  {
    (if |slots| > 1 then [','] else []) + (SlotsText(slots[1..]) + [']'])
  }

  lemma SlotsParts(slots: seq<Slot>)
    requires slots != []
    ensures SlotsText(slots) + [']'] == slots[0].before + (Spell(slots[0].value) + (slots[0].after + SlotsTail(slots)))
  {
    var s, rest := slots[0], SlotsText(slots[1..]);
    SlotsUnfold(slots);
    hide Spell, SlotsText;
    RegroupSlot(s.before, Spell(s.value), s.after, if |slots| > 1 then [','] else [], rest, [']']);
  }

  lemma SlotsTailIs(slots: seq<Slot>)
    requires slots != []
    ensures SlotsTail(slots) == if |slots| > 1 then [','] + (SlotsText(slots[1..]) + [']']) else [']']
  {
    if |slots| == 1 {
      assert slots[1..] == [] && SlotsText([]) == [];
    }
    hide SlotsText;
  }

  lemma SlotsUnfold(slots: seq<Slot>)
    requires slots != []
    ensures var s := slots[0];
      SlotsText(slots)
        == (s.before + (Spell(s.value) + (s.after + if |slots| > 1 then [','] else []))) + SlotsText(slots[1..])
    ensures SlotsText([]) == []
  {
    hide Spell;
  }

  lemma RegroupSlot(b: CString, v: CString, a: CString, comma: CString, rest: CString, close: CString)
    ensures ((b + (v + (a + comma))) + rest) + close == b + (v + (a + (comma + (rest + close))))
  {
  }

  /** Where the first element is found. */
  lemma FirstSlot(slots: seq<Slot>, depth: nat, c: seq<Byte>, p: nat) returns (s: nat)
    requires slots != [] && SlotsFit(slots, depth) && At(c, p, SlotsText(slots) + [']'])
    ensures s == p + |slots[0].before| == SkipWhitespace(c, p) == SkipWhitespace(c, s) < |c| && c[s] != ']'
    ensures At(c, s, Spell(slots[0].value) + (slots[0].after + SlotsTail(slots)))
  {
    s := p + |slots[0].before|;
    assert slots[0] in slots;
    SpellBegins(slots[0].value, depth);
    hide At, SkipWhitespace, SlotsText, Spell, SlotsTail;
    SlotsParts(slots);
    BlanksAt(c, p, slots[0].before, Spell(slots[0].value) + (slots[0].after + SlotsTail(slots)));
  }

  /** What the parser finds behind an element or a value. */
  lemma TailAt(c: seq<Byte>, e: nat, after: CString, tail: CString)
    requires IsBlank(after) && tail != [] && (tail[0] == ',' || tail[0] == ']' || tail[0] == '}') && At(c, e, after + tail)
    ensures Stops(c, e) && SkipWhitespace(c, e) == e + |after| && Sees(c, e + |after|, tail[0])
    ensures At(c, e + |after|, tail)
  {
    hide At, SkipWhitespace;
    BlanksAt(c, e, after, tail);
  }

  lemma LastElement(c: seq<Byte>, o: nat, depth: nat, j: Json, e: nat)
    requires o < |c| && ParseValue(c, SkipWhitespace(c, o + 1), depth) == Parsed(j, e)
    requires Sees(c, SkipWhitespace(c, e), ']')
    ensures ParseElements(c, o, depth) == Parsed([j], SkipWhitespace(c, e) + 1)
  {
    hide SkipWhitespace, ParseValue;
  }

  lemma MoreElements(c: seq<Byte>, o: nat, depth: nat, j: Json, e: nat, t: nat, rest: seq<Json>, end: nat)
    requires o < |c| && ParseValue(c, SkipWhitespace(c, o + 1), depth) == Parsed(j, e)
    requires SkipWhitespace(c, e) == t && Sees(c, t, ',') && ParseElements(c, t, depth) == Parsed(rest, end)
    ensures ParseElements(c, o, depth) == Parsed([j] + rest, end)
  {
    hide SkipWhitespace, ParseValue;
  }

  /** Elements whose text stands at `p`; `o` is the bracket or comma before, or the byte before the first value. */
  lemma {:induction false} SlotsRead(slots: seq<Slot>, depth: nat, c: seq<Byte>, o: nat, p: nat)
    requires slots != [] && SlotsFit(slots, depth) && At(c, p, SlotsText(slots) + [']'])
    requires o < |c| && SkipWhitespace(c, o + 1) == p + |slots[0].before|
    ensures ParseElements(c, o, depth) == Parsed(MeantItems(slots, depth), p + |SlotsText(slots)| + 1)
    decreases slots, 0
  {
    hide *;
    var s, rest := slots[0], slots[1..];
    MeantSlots(slots, depth);
    SlotsParts(slots);
    SlotsTailIs(slots);
    var v := FirstSlot(slots, depth, c, p);
    var e := v + |Spell(s.value)|;
    AtParts(c, v, Spell(s.value), s.after + SlotsTail(slots));
    TailAt(c, e, s.after, SlotsTail(slots));
    ValueReads(s.value, depth, c, v);
    var t := e + |s.after|;
    SlotsLength(slots);
    if rest != [] {
      AtParts(c, t, [','], SlotsText(rest) + [']']);
      var next := FirstSlot(rest, depth, c, t + 1);
      SlotsRead(rest, depth, c, t, t + 1);
      MoreElements(c, o, depth, Meant(s.value, depth), e, t, MeantItems(rest, depth), t + 1 + |SlotsText(rest)| + 1);
    } else {
      LastElement(c, o, depth, Meant(s.value, depth), e);
    }
  }

  lemma SlotsLength(slots: seq<Slot>)
    requires slots != []
    ensures var s := slots[0];
      |SlotsText(slots)| == |s.before| + |Spell(s.value)| + |s.after| + if |slots| > 1 then 1 + |SlotsText(slots[1..])| else 0
  {
    SlotsUnfold(slots);
    if |slots| == 1 {
      assert slots[1..] == [];
    }
    hide Spell, SlotsText;
  }

  lemma MeantSlots(slots: seq<Slot>, depth: nat)
    requires slots != [] && SlotsFit(slots, depth)
    ensures IsBlank(slots[0].before) && IsBlank(slots[0].after) && IsSpelled(slots[0].value, depth)
    ensures SlotsFit(slots[1..], depth)
    ensures MeantItems(slots, depth) == [Meant(slots[0].value, depth)] + MeantItems(slots[1..], depth)
    ensures |slots| == 1 ==> MeantItems(slots, depth) == [Meant(slots[0].value, depth)]
  {
    hide IsBlank, IsSpelled, Meant;
    assert slots[0] in slots;
  }

  // --- Reading members ------------------------------------------------------------------------

  lemma {:induction false} RecordReads(blank: CString, fields: seq<Field>, depth: nat, c: seq<Byte>, o: nat)
    requires IsSpelled(Record(blank, fields), depth) && At(c, o, Spell(Record(blank, fields)))
    ensures ParseValue(c, o, depth) == Parsed(Object(MeantMembers(fields, depth + 1)), o + |Spell(Record(blank, fields))|)
    decreases fields, 1
  {
    RecordFits(blank, fields, depth);
    hide *;
    if fields == [] {
      EmptyReads(c, o, blank, depth);
    } else {
      AtParts(c, o, ['{'], FieldsText(fields) + ['}']);
      SeesFirst(c, o, ['{']);
      var s := FirstField(fields, depth + 1, c, o + 1);
      FieldsRead(fields, depth + 1, c, s - 1, o + 1);
      ObjectAt(c, o, depth, s, MeantMembers(fields, depth + 1), o + |FieldsText(fields)| + 2);
    }
  }

  lemma RecordFits(blank: CString, fields: seq<Field>, depth: nat)
    requires IsSpelled(Record(blank, fields), depth)
    ensures depth < 1000 && IsBlank(blank) && FieldsFit(fields, depth + 1)
    ensures fields == [] ==> Spell(Record(blank, fields)) == ['{'] + (blank + ['}']) && MeantMembers(fields, depth + 1) == []
    ensures fields != [] ==> Spell(Record(blank, fields)) == ['{'] + (FieldsText(fields) + ['}'])
  {
    hide IsBlank, FieldsText;
  }

  function FieldsTail(fields: seq<Field>): CString
    requires fields != []
  {
    (if |fields| > 1 then [','] else []) + (FieldsText(fields[1..]) + ['}'])
  }

  /** A member behind its name, and what follows it. */
  function ValueTail(fields: seq<Field>): CString
    requires fields != []
  {
    [':'] + (fields[0].gap + (Spell(fields[0].value) + (fields[0].after + FieldsTail(fields))))
  }

  lemma FieldsParts(fields: seq<Field>)
    requires fields != []
    ensures FieldsText(fields) + ['}']
         == fields[0].before + (Enclosed(fields[0].name) + (fields[0].middle + ValueTail(fields)))
  {
    var f, rest := fields[0], FieldsText(fields[1..]);
    FieldsUnfold(fields);
    hide Spell, Enclosed, FieldsText;
    RegroupField(f.before, Enclosed(f.name), f.middle, [':'], f.gap, Spell(f.value), f.after,
                 if |fields| > 1 then [','] else [], rest, ['}']);
  }

  lemma FieldsTailIs(fields: seq<Field>)
    requires fields != []
    ensures FieldsTail(fields) == if |fields| > 1 then [','] + (FieldsText(fields[1..]) + ['}']) else ['}']
  {
    if |fields| == 1 {
      assert fields[1..] == [] && FieldsText([]) == [];
    }
    hide FieldsText;
  }

  lemma FieldsUnfold(fields: seq<Field>)
    requires fields != []
    ensures var f := fields[0];
      FieldsText(fields)
        == (f.before + (Enclosed(f.name) + (f.middle + ([':'] + (f.gap + (Spell(f.value)
             + (f.after + if |fields| > 1 then [','] else []))))))) + FieldsText(fields[1..])
    ensures FieldsText([]) == []
  {
    hide Spell, Enclosed;
  }

  lemma RegroupField(a: CString, b: CString, c: CString, d: CString, e: CString, f: CString, g: CString, comma: CString,
                     rest: CString, close: CString)
    ensures ((a + (b + (c + (d + (e + (f + (g + comma))))))) + rest) + close
         == a + (b + (c + (d + (e + (f + (g + (comma + (rest + close))))))))
  {
    AppendAssociates(a + (b + (c + (d + (e + (f + (g + comma)))))), rest, close);
    var tail := rest + close;
    AppendAssociates(a, b + (c + (d + (e + (f + (g + comma))))), tail);
    AppendAssociates(b, c + (d + (e + (f + (g + comma)))), tail);
    AppendAssociates(c, d + (e + (f + (g + comma))), tail);
    AppendAssociates(d, e + (f + (g + comma)), tail);
    AppendAssociates(e, f + (g + comma), tail);
    AppendAssociates(f, g + comma, tail);
    AppendAssociates(g, comma, tail);
  }

  /** Where the first name is found. */
  lemma FirstField(fields: seq<Field>, depth: nat, c: seq<Byte>, p: nat) returns (s: nat)
    requires fields != [] && FieldsFit(fields, depth) && At(c, p, FieldsText(fields) + ['}'])
    ensures s == p + |fields[0].before| == SkipWhitespace(c, p) == SkipWhitespace(c, s) < |c| && c[s] == '\"'
    ensures At(c, s, Enclosed(fields[0].name) + (fields[0].middle + ValueTail(fields)))
  {
    s := p + |fields[0].before|;
    assert fields[0] in fields;
    assert Enclosed(fields[0].name)[0] == '\"';
    hide At, SkipWhitespace, FieldsText, ValueTail, Enclosed;
    FieldsParts(fields);
    BlanksAt(c, p, fields[0].before, Enclosed(fields[0].name) + (fields[0].middle + ValueTail(fields)));
  }

  /** The name of a member, its colon, and where its value is. */
  lemma NameReads(fields: seq<Field>, depth: nat, c: seq<Byte>, o: nat, s: nat) returns (colon: nat, v: nat)
    requires fields != [] && FieldsFit(fields, depth)
    requires o + 1 < |c| && SkipWhitespace(c, o + 1) == s
    requires At(c, s, Enclosed(fields[0].name) + (fields[0].middle + ValueTail(fields)))
    ensures ParseKey(c, o) == Parsed(StringIn(PiecesBytes(fields[0].name)), colon)
    ensures colon == s + |Enclosed(fields[0].name)| + |fields[0].middle| && v == colon + 1 + |fields[0].gap|
    ensures colon < |c| && SkipWhitespace(c, colon + 1) == v
    ensures At(c, v, Spell(fields[0].value) + (fields[0].after + FieldsTail(fields)))
  {
    var f := fields[0];
    MeantFields(fields, depth);
    SpellBegins(f.value, depth);
    var rest := Spell(f.value) + (f.after + FieldsTail(fields));
    hide At, SkipWhitespace, FieldsTail, Enclosed, Spell, FieldsFit, IsSpelled, IsBlank, PiecesBytes, ArePieces, Meant;
    hide MeantMembers;
    colon := KeyReads(c, o, s, f.name, f.middle, ValueTail(fields));
    v := GapReads(c, colon, f.gap, rest);
  }

  lemma KeyReads(c: seq<Byte>, o: nat, s: nat, name: seq<Piece>, middle: CString, tail: CString) returns (colon: nat)
    requires ArePieces(name) && IsBlank(middle) && tail != [] && tail[0] == ':'
    requires o + 1 < |c| && SkipWhitespace(c, o + 1) == s && At(c, s, Enclosed(name) + (middle + tail))
    ensures colon == s + |Enclosed(name)| + |middle| < |c| && At(c, colon, tail)
    ensures ParseKey(c, o) == Parsed(StringIn(PiecesBytes(name)), colon)
  {
    hide At, SkipWhitespace, Enclosed, ParseString, IsBlank, PiecesBytes;
    colon := s + |Enclosed(name)| + |middle|;
    AtParts(c, s, Enclosed(name), middle + tail);
    QuotedReads(c, s, name);
    BlanksAt(c, s + |Enclosed(name)|, middle, tail);
  }

  lemma GapReads(c: seq<Byte>, colon: nat, gap: CString, rest: CString) returns (v: nat)
    requires IsBlank(gap) && rest != [] && rest[0] > ' ' && At(c, colon, [':'] + (gap + rest))
    ensures v == colon + 1 + |gap| == SkipWhitespace(c, colon + 1) && At(c, v, rest)
  {
    hide At, SkipWhitespace, IsBlank;
    v := colon + 1 + |gap|;
    AtParts(c, colon, [':'], gap + rest);
    BlanksAt(c, colon + 1, gap, rest);
  }

  lemma MeantFields(fields: seq<Field>, depth: nat)
    requires fields != [] && FieldsFit(fields, depth)
    ensures var f := fields[0];
      && IsBlank(f.before) && IsBlank(f.middle) && IsBlank(f.gap) && IsBlank(f.after)
      && ArePieces(f.name) && IsSpelled(f.value, depth)
    ensures FieldsFit(fields[1..], depth)
    ensures MeantMembers(fields, depth)
         == [Entry(StringIn(PiecesBytes(fields[0].name)), Meant(fields[0].value, depth))] + MeantMembers(fields[1..], depth)
    ensures |fields| == 1 ==>
      MeantMembers(fields, depth) == [Entry(StringIn(PiecesBytes(fields[0].name)), Meant(fields[0].value, depth))]
  {
    hide IsBlank, IsSpelled, IsPiece, Meant, PiecesBytes;
    assert fields[0] in fields;
  }

  lemma LastMember(c: seq<Byte>, o: nat, depth: nat, key: CString, colon: nat, j: Json, e: nat)
    requires o < |c| && ParseKey(c, o) == Parsed(key, colon)
    requires colon < |c| && ParseValue(c, SkipWhitespace(c, colon + 1), depth) == Parsed(j, e) && e <= |c|
    requires Sees(c, SkipWhitespace(c, e), '}')
    ensures ParseMembers(c, o, depth) == Parsed([Entry(key, j)], SkipWhitespace(c, e) + 1)
  {
    hide SkipWhitespace, ParseKey, ParseValue;
  }

  lemma MoreMembers(c: seq<Byte>, o: nat, depth: nat, key: CString, colon: nat, j: Json, e: nat, t: nat,
                    rest: seq<Entry<Json>>, end: nat)
    requires o < |c| && ParseKey(c, o) == Parsed(key, colon)
    requires colon < |c| && ParseValue(c, SkipWhitespace(c, colon + 1), depth) == Parsed(j, e) && e <= |c|
    requires SkipWhitespace(c, e) == t && Sees(c, t, ',') && ParseMembers(c, t, depth) == Parsed(rest, end)
    ensures ParseMembers(c, o, depth) == Parsed([Entry(key, j)] + rest, end)
  {
    hide SkipWhitespace, ParseKey, ParseValue;
  }

  /** Members whose text stands at `p`; `o` is the brace or comma before, or the byte before the first name. */
  lemma {:induction false} FieldsRead(fields: seq<Field>, depth: nat, c: seq<Byte>, o: nat, p: nat)
    requires fields != [] && FieldsFit(fields, depth) && At(c, p, FieldsText(fields) + ['}'])
    requires o + 1 < |c| && SkipWhitespace(c, o + 1) == p + |fields[0].before|
    ensures ParseMembers(c, o, depth) == Parsed(MeantMembers(fields, depth), p + |FieldsText(fields)| + 1)
    decreases fields, 0
  {
    hide *;
    var f, rest := fields[0], fields[1..];
    MeantFields(fields, depth);
    FieldsParts(fields);
    FieldsTailIs(fields);
    var s := FirstField(fields, depth, c, p);
    var colon, v := NameReads(fields, depth, c, o, s);
    var key, e := StringIn(PiecesBytes(f.name)), v + |Spell(f.value)|;
    AtParts(c, v, Spell(f.value), f.after + FieldsTail(fields));
    TailAt(c, e, f.after, FieldsTail(fields));
    ValueReads(f.value, depth, c, v);
    var t := e + |f.after|;
    FieldsLength(fields);
    if rest != [] {
      AtParts(c, t, [','], FieldsText(rest) + ['}']);
      var next := FirstField(rest, depth, c, t + 1);
      FieldsRead(rest, depth, c, t, t + 1);
      MoreMembers(c, o, depth, key, colon, Meant(f.value, depth), e, t, MeantMembers(rest, depth),
                  t + 1 + |FieldsText(rest)| + 1);
    } else {
      LastMember(c, o, depth, key, colon, Meant(f.value, depth), e);
    }
  }

  lemma FieldsLength(fields: seq<Field>)
    requires fields != []
    ensures var f := fields[0];
      |FieldsText(fields)| == |f.before| + |Enclosed(f.name)| + |f.middle| + 1 + |f.gap| + |Spell(f.value)| + |f.after|
                              + if |fields| > 1 then 1 + |FieldsText(fields[1..])| else 0
  {
    FieldsUnfold(fields);
    if |fields| == 1 {
      assert fields[1..] == [];
    }
    hide Spell, FieldsText, Enclosed;
  }

  // --- Documents ------------------------------------------------------------------------------

  /** A byte order mark (section 8.1), or none. */
  function Mark(bom: bool): CString
  {
    if bom then ['\U{00EF}', '\U{00BB}', '\U{00BF}'] else []
  }

  /**
   Every text of a value, with blanks around it and perhaps a byte order mark before
   it, is read as what it stands for. The end is that of the value or, when only the
   NUL may follow, the end of the text.
   */
  lemma DocumentReads(w: Spelled, bom: bool, before: CString, after: CString, requireNull: bool)
    requires IsSpelled(w, 0) && IsBlank(before) && IsBlank(after)
    ensures var value := Mark(bom) + before + Spell(w);
      ParseCString(value + after, requireNull)
        == Parsed(Meant(w, 0), if requireNull then |value + after| else |value|)
  {
    var value := Mark(bom) + before + Spell(w);
    var c: seq<Byte> := value + after + ['\0'];
    var p, e := |Mark(bom) + before|, |value|;
    assert ParseCString(value + after, requireNull) == ParseDocument(c, requireNull);
    DocumentBegins(w, bom, before, after);
    hide *;
    Slices(Mark(bom), before, Spell(w), after);
    TrailingBlanks(c, e, after);
    ValueReads(w, 0, c, p);
    DocumentEnds(c, |Mark(bom)|, p, Meant(w, 0), e, requireNull);
  }

  lemma Slices(x: CString, y: CString, v: CString, a: CString)
    ensures var c: seq<Byte> := x + y + v + a + ['\0'];
      At(c, |x + y|, v) && |c| == |x + y + v| + |a| + 1 && c[|x + y + v|..] == a + ['\0']
  {
    var c: seq<Byte> := x + y + v + a + ['\0'];
    assert c[|x + y|..|x + y| + |v|] == v;
  }

  lemma DocumentEnds(c: seq<Byte>, o: nat, p: nat, j: Json, e: nat, requireNull: bool)
    requires c != [] && AfterBom(c) == o && SkipWhitespace(c, o) == p && ParseValue(c, p, 0) == Parsed(j, e)
    requires SkipWhitespace(c, e) == |c| - 1 && Sees(c, |c| - 1, '\0')
    ensures ParseDocument(c, requireNull) == Parsed(j, if requireNull then |c| - 1 else e)
  {
    hide ParseValue, SkipWhitespace, AfterBom;
  }

  lemma DocumentBegins(w: Spelled, bom: bool, before: CString, after: CString)
    requires IsSpelled(w, 0) && IsBlank(before)
    ensures var c: seq<Byte> := Mark(bom) + before + Spell(w) + after + ['\0'];
      AfterBom(c) == |Mark(bom)| && SkipWhitespace(c, |Mark(bom)|) == |Mark(bom) + before|
  {
    SpellBegins(w, 0);
    hide IsSpelled, Spell, SkipWhitespace;
    var c: seq<Byte> := Mark(bom) + before + Spell(w) + after + ['\0'];
    var o, p := |Mark(bom)|, |Mark(bom) + before|;
    assert c[p] == Spell(w)[0];
    forall i | o <= i < p ensures c[i] <= ' ' {
      assert c[i] == before[i - o] && before[i - o] in before;
    }
    SkipBlanks(c, o, |before|);
  }

  /** Blanks up to the NUL: skipping them ends at the NUL. */
  lemma TrailingBlanks(c: seq<Byte>, e: nat, after: CString)
    requires e + |after| + 1 == |c| && c[e..] == after + ['\0'] && IsBlank(after)
    ensures Stops(c, e) && SkipWhitespace(c, e) == |c| - 1 && Sees(c, |c| - 1, '\0')
  {
    forall i | e <= i < |c| ensures c[i] <= ' ' {
      assert c[i] == (after + ['\0'])[i - e];
      assert i < e + |after| ==> after[i - e] in after;
    }
    assert c[|c| - 1] == (after + ['\0'])[|after|];
    SkipRest(c, e);
  }

  lemma {:induction false} SkipRest(c: seq<Byte>, e: nat)
    requires e <= |c| && forall i :: e <= i < |c| ==> c[i] <= ' '
    ensures SkipSpace(c, e) == |c|
    decreases |c| - e
  {
    if e < |c| {
      SkipRest(c, e + 1);
    }
  }

  /** The same without blanks and NUL, when other bytes follow the value. */
  lemma ValueReadsBefore(w: Spelled, tail: seq<Byte>)
    requires IsSpelled(w, 0) && (tail == [] || !IsNumberChar(tail[0]))
    ensures ParseDocument(Spell(w) + tail, false) == Parsed(Meant(w, 0), |Spell(w)|)
  {
    SpellBegins(w, 0);
    hide IsSpelled, Spell, ParseValue;
    var c: seq<Byte> := Spell(w) + tail;
    assert c[0..|Spell(w)|] == Spell(w) && c[0] == Spell(w)[0] && (tail != [] ==> c[|Spell(w)|] == tail[0]);
    SkipBlanks(c, 0, 0);
    ValueReads(w, 0, c, 0);
  }
}
