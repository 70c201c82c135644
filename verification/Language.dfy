/**
 What the parser reads is written by the grammar: a text of which it makes a tree
 has the blanks, strings, numbers, brackets and depth that the grammar allows, and
 stands for that tree. Only escapes without four digits have to be excepted.
 */
module Language {
  import opened Bytes
  import opened Json
  import opened ParseText
  import opened Grammar

  // --- Buffers that hold a C string -----------------------------------------------

  /** A C string and its NUL. */
  ghost predicate Ended(c: seq<Byte>)
  {
    c != [] && c[|c| - 1] == '\0' && forall i :: 0 <= i < |c| - 1 ==> c[i] != '\0'
  }

  function Cut(c: seq<Byte>, p: nat, q: nat): (r: CString)
    requires Ended(c) && p <= q < |c|
    ensures |r| == q - p && At(c, p, r)
  {
    c[p..q]
  }

  lemma AtJoin(c: seq<Byte>, o: nat, x: CString, y: CString)
    requires At(c, o, x) && At(c, o + |x|, y)
    ensures At(c, o, x + y)
  {
    assert c[o..o + |x| + |y|] == c[o..o + |x|] + c[o + |x|..o + |x| + |y|];
  }

  /** No byte of a text is the NUL at the end. */
  lemma AtBefore(c: seq<Byte>, o: nat, x: CString)
    requires Ended(c) && At(c, o, x) && x != []
    ensures o + |x| < |c|
  {
    AtByte(c, o, x, |x| - 1);
  }

  lemma {:induction false} Skipped(c: seq<Byte>, p: nat)
    requires p <= |c|
    ensures forall i :: p <= i < SkipSpace(c, p) ==> c[i] <= ' '
    decreases |c| - p
  {
    if p < |c| && c[p] <= ' ' {
      Skipped(c, p + 1);
    }
  }

  /** What has been skipped before a byte that is no blank. */
  lemma BlankBefore(c: seq<Byte>, p: nat, q: nat)
    requires Ended(c) && p <= |c| && SkipWhitespace(c, p) == q < |c| && c[q] > ' '
    ensures p <= q && IsBlank(Cut(c, p, q)) && SkipWhitespace(c, q) == q
  {
    Skipped(c, p);
    SkipBlanks(c, q, 0);
  }

  // --- Strings ----------------------------------------------------------------------

  predicate IsHexDigit(b: Byte)
  {
    b in "0123456789abcdefABCDEF"
  }

  function Backslashes(c: seq<Byte>, i: nat): nat
    requires i <= |c|
  {
    if i > 0 && c[i - 1] == '\\' then 1 + Backslashes(c, i - 1) else 0
  }

  /** `\u` at `i`, with a backslash that is not escaped, and four bytes behind it. */
  predicate EscapeAt(c: seq<Byte>, i: nat)
  {
    i + 6 <= |c| && c[i] == '\\' && c[i + 1] == 'u' && Backslashes(c, i) % 2 == 0
  }

  /** Four hexadecimal digits follow every `\u`. */
  ghost predicate AllHex(c: seq<Byte>)
  {
    forall i: nat :: EscapeAt(c, i) ==>
      IsHexDigit(c[i + 2]) && IsHexDigit(c[i + 3]) && IsHexDigit(c[i + 4]) && IsHexDigit(c[i + 5])
  }

  lemma HexBack(b: Byte) returns (d: nat)
    requires IsHexDigit(b)
    ensures b != '\0' && b != '\\' && HexValue(b) == Some(d) && IsHex(b, d)
  {
    d := HexValue(b).value;
  }

  lemma Positions(d0: nat, d1: nat, d2: nat, d3: nat)
    requires d0 < 16 && d1 < 16 && d2 < 16 && d3 < 16
    ensures var n := 0x1000 * d0 + 0x100 * d1 + 0x10 * d2 + d3;
      n / 0x1000 == d0 && n / 0x100 % 0x10 == d1 && n / 0x10 % 0x10 == d2 && n % 0x10 == d3
  {
    var n := 0x1000 * d0 + 0x100 * d1 + 0x10 * d2 + d3;
    assert n / 0x10 == 0x100 * d0 + 0x10 * d1 + d2;
    assert n / 0x100 == 0x10 * d0 + d1;
  }

  lemma DigitsBack(b0: Byte, b1: Byte, b2: Byte, b3: Byte, n: nat) returns (digits: CString)
    requires IsHexDigit(b0) && IsHexDigit(b1) && IsHexDigit(b2) && IsHexDigit(b3) && Hex4([b0, b1, b2, b3], 0) == n
    ensures Writes16(digits, n) && digits == [b0, b1, b2, b3] && b3 != '\\'
  {
    hide IsHex, HexValue, IsHexDigit;
    var d0 := HexBack(b0);
    var d1 := HexBack(b1);
    var d2 := HexBack(b2);
    var d3 := HexBack(b3);
    HexBounds(b0, d0);
    HexBounds(b1, d1);
    HexBounds(b2, d2);
    HexBounds(b3, d3);
    Positions(d0, d1, d2, d3);
    digits := [b0, b1, b2, b3];
    assert n == 0x1000 * d0 + 0x100 * d1 + 0x10 * d2 + d3;
    hide Hex4;
  }

  lemma HexBounds(b: CChar, d: nat)
    requires IsHex(b, d)
    ensures d < 16
  {
  }

  /** The digits of an escape. */
  lemma UnitBack(c: seq<Byte>, i: nat) returns (digits: CString)
    requires AllHex(c) && EscapeAt(c, i)
    ensures Writes16(digits, Hex4(c, i + 2)) && At(c, i, ['\\', 'u'] + digits) && Backslashes(c, i + 6) == 0
  {
    hide IsHexDigit, HexValue, Writes16;
    assert Hex4([c[i + 2], c[i + 3], c[i + 4], c[i + 5]], 0) == Hex4(c, i + 2);
    hide Hex4;
    digits := DigitsBack(c[i + 2], c[i + 3], c[i + 4], c[i + 5], Hex4(c, i + 2));
    assert c[i..i + 6] == ['\\', 'u'] + digits;
  }

  lemma PairBack(high: nat, low: nat)
    requires 0xD800 <= high <= 0xDBFF && 0xDC00 <= low <= 0xDFFF
    ensures var codepoint := 0x1_0000 + high % 0x400 * 0x400 + low % 0x400;
      && 0x1_0000 <= codepoint <= 0x10_FFFF
      && 0xD800 + (codepoint - 0x1_0000) / 0x400 == high && 0xDC00 + (codepoint - 0x1_0000) % 0x400 == low
  {
    var h, l := high - 0xD800, low - 0xDC00;
    assert high % 0x400 == h && low % 0x400 == l;
    assert (h * 0x400 + l) / 0x400 == h && (h * 0x400 + l) % 0x400 == l;
  }

  lemma ShortIndex(b: Byte) returns (index: nat)
    requires SimpleEscape(b).Some?
    ensures index < 8 && SHORT[index] == b
  {
    index := if b == '\"' then 0 else if b == '\\' then 1 else if b == '/' then 2 else if b == 'b' then 3
             else if b == 'f' then 4 else if b == 'n' then 5 else if b == 'r' then 6 else 7;
  }

  /** The piece at `i`, behind which the string goes on. */
  lemma PieceBack(c: seq<Byte>, i: nat, e: nat) returns (p: Piece)
    requires Ended(c) && AllHex(c) && i < e < |c| && Backslashes(c, i) % 2 == 0
    requires ClosingQuote(c, i) == Some(e) && DecodeString(c, i, e).Some?
    ensures IsPiece(p) && At(c, i, PieceText(p)) && i + |PieceText(p)| <= e && Backslashes(c, i + |PieceText(p)|) % 2 == 0
  {
    if c[i] != '\\' {
      hide ClosingQuote, DecodeString, AllHex;
      p := Plain(c[i]);
      assert c[i..i + 1] == PieceText(p);
    } else {
      EscapeBegins(c, i, e);
      hide ClosingQuote, DecodeString, AllHex;
      if c[i + 1] == 'u' {
        p := UnicodeBack(c, i, e);
      } else {
        p := ShortBack(c, i, e);
      }
    }
  }

  lemma EscapeBegins(c: seq<Byte>, i: nat, e: nat)
    requires i < e < |c| && c[i] == '\\' && ClosingQuote(c, i) == Some(e) && DecodeString(c, i, e).Some?
    ensures i + 2 <= e && if c[i + 1] == 'u' then Utf16(c, i, e).Some? else SimpleEscape(c[i + 1]).Some?
  {
    hide Utf16, SimpleEscape, Utf8;
  }

  lemma ShortBack(c: seq<Byte>, i: nat, e: nat) returns (p: Piece)
    requires i + 2 <= e < |c| && c[i] == '\\' && SimpleEscape(c[i + 1]).Some? && Backslashes(c, i) % 2 == 0
    ensures IsPiece(p) && At(c, i, PieceText(p)) && i + |PieceText(p)| <= e && Backslashes(c, i + |PieceText(p)|) % 2 == 0
  {
    var index := ShortIndex(c[i + 1]);
    p := Short(index);
    assert c[i..i + 2] == PieceText(p);
    assert c[i + 1] == '\\' ==> Backslashes(c, i + 2) == 2 + Backslashes(c, i);
  }

  lemma UnicodeBack(c: seq<Byte>, i: nat, e: nat) returns (p: Piece)
    requires Ended(c) && AllHex(c) && i < e < |c| && Backslashes(c, i) % 2 == 0
    requires c[i] == '\\' && c[i + 1] == 'u' && Utf16(c, i, e).Some?
    ensures IsPiece(p) && At(c, i, PieceText(p)) && i + |PieceText(p)| <= e && Backslashes(c, i + |PieceText(p)|) % 2 == 0
  {
    hide Writes16, Hex4, AllHex;
    var digits := UnitBack(c, i);
    var code := Hex4(c, i + 2);
    WrittenLength(digits, code);
    if 0xD800 <= code <= 0xDBFF {
      var low := UnitBack(c, i + 6);
      var second := Hex4(c, i + 8);
      WrittenLength(low, second);
      PairBack(code, second);
      p := Pair(0x1_0000 + code % 0x400 * 0x400 + second % 0x400, digits, low);
      hide At, Backslashes;
      AtJoin(c, i, ['\\', 'u'] + digits, ['\\', 'u'] + low);
      assert PieceText(p) == (['\\', 'u'] + digits) + (['\\', 'u'] + low);
    } else {
      p := Unit(code, digits);
    }
  }

  lemma WrittenLength(digits: CString, n: nat)
    requires Writes16(digits, n)
    ensures |digits| == 4
  {
  }

  lemma {:induction false} PiecesBack(c: seq<Byte>, i: nat, e: nat) returns (ps: seq<Piece>)
    requires Ended(c) && AllHex(c) && i <= e < |c| && Backslashes(c, i) % 2 == 0
    requires ClosingQuote(c, i) == Some(e) && DecodeString(c, i, e).Some?
    ensures ArePieces(ps) && At(c, i, PiecesText(ps)) && i + |PiecesText(ps)| == e
    decreases e - i
  {
    if i == e {
      ps := [];
    } else {
      var p := PieceBack(c, i, e);
      hide ClosingQuote, DecodeString, At, PieceText, IsPiece, AllHex, Ended, Backslashes;
      PieceReads(c, i, p, e);
      var rest := PiecesBack(c, i + |PieceText(p)|, e);
      ps := [p] + rest;
      assert ps[1..] == rest;
      AtJoin(c, i, PieceText(p), PiecesText(rest));
    }
  }

  lemma StringBack(c: seq<Byte>, o: nat) returns (ps: seq<Piece>)
    requires Ended(c) && AllHex(c) && o < |c| && ParseString(c, o).Parsed?
    ensures ArePieces(ps) && At(c, o, Enclosed(ps))
    ensures ParseString(c, o) == Parsed(StringIn(PiecesBytes(ps)), o + |Enclosed(ps)|)
  {
    var e := StringEnds(c, o);
    hide *;
    ps := PiecesBack(c, o + 1, e);
    SeesIs(c, o);
    SeesIs(c, e);
    AtJoin(c, o + 1, PiecesText(ps), ['\"']);
    AtJoin(c, o, ['\"'], PiecesText(ps) + ['\"']);
    EnclosedParts(ps);
    QuotedReads(c, o, ps);
  }

  lemma StringEnds(c: seq<Byte>, o: nat) returns (e: nat)
    requires o < |c| && ParseString(c, o).Parsed?
    ensures Sees(c, o, '\"') && Sees(c, e, '\"') && o < e < |c| && Backslashes(c, o + 1) == 0
    ensures ClosingQuote(c, o + 1) == Some(e) && DecodeString(c, o + 1, e).Some?
  {
    hide DecodeString;
    e := ClosingQuote(c, o + 1).value;
  }

  /** The byte at `t`, when it is one of those that the parser looks for. */
  lemma SeesIs(c: seq<Byte>, t: nat)
    ensures forall b :: Sees(c, t, b) ==> t < |c| && c[t] == b && At(c, t, [b])
  {
  }

  lemma EnclosedParts(ps: seq<Piece>)
    ensures Enclosed(ps) == ['\"'] + (PiecesText(ps) + ['\"'])
  {
  }

  // --- Numbers ------------------------------------------------------------------------

  lemma NumberBack(c: seq<Byte>, o: nat) returns (w: Spelled)
    requires Ended(c) && o < |c| && (c[o] == '-' || IsDigit(c[o])) && ParseNumber(c, o).Parsed?
    ensures w.Numeral? && IsSpelled(w, 0) && At(c, o, Spell(w))
    ensures ParseNumber(c, o) == Parsed(Number(NumeralValue(w.negative, w.digits)), o + |Spell(w)|)
  {
    var s := if c[o] == '-' then o + 1 else o;
    var e := DigitsEnd(c, s);
    w := Numeral(c[o] == '-', Cut(c, s, e));
    if c[o] == '-' {
      AtJoin(c, o, ['-'], Cut(c, s, e));
    }
  }

  // --- Values -----------------------------------------------------------------------------

  lemma WordBack(c: seq<Byte>, o: nat, depth: nat) returns (w: Spelled)
    requires o <= |c| && (At(c, o, "null") || At(c, o, "false") || At(c, o, "true"))
    ensures w.Word? && IsSpelled(w, depth) && At(c, o, Spell(w)) && ParseValue(c, o, depth) == Parsed(Meant(w, depth), o + |Spell(w)|)
  {
    w := Word(if At(c, o, "null") then Null else if At(c, o, "false") then False else True);
  }

  /** What the parser makes a tree of is written by the grammar. */
  lemma {:induction false} ValueBack(c: seq<Byte>, o: nat, depth: nat) returns (w: Spelled)
    requires Ended(c) && AllHex(c) && o <= |c| && ParseValue(c, o, depth).Parsed?
    ensures IsSpelled(w, depth) && At(c, o, Spell(w))
    ensures ParseValue(c, o, depth) == Parsed(Meant(w, depth), o + |Spell(w)|)
    decreases |c| - o, 3
  {
    hide At, ParseString, ParseNumber, ParseArray, ParseObject, AllHex, Enclosed, Ended;
    if At(c, o, "null") || At(c, o, "false") || At(c, o, "true") {
      w := WordBack(c, o, depth);
    } else if Sees(c, o, '\"') {
      var ps := StringBack(c, o);
      w := Quote(ps);
    } else if o < |c| && (c[o] == '-' || IsDigit(c[o])) {
      w := NumberBack(c, o);
    } else if Sees(c, o, '[') {
      w := ArrayBack(c, o, depth);
    } else {
      w := ObjectBack(c, o, depth);
    }
  }

  /** What stands between brackets is blank. */
  lemma EmptyBack(c: seq<Byte>, o: nat, s: nat, open: CChar, close: CChar) returns (blank: CString)
    requires Ended(c) && Sees(c, o, open) && o + 1 <= |c| && SkipWhitespace(c, o + 1) == s && Sees(c, s, close) && close > ' '
    ensures IsBlank(blank) && At(c, o, [open] + (blank + [close])) && s == o + 1 + |blank|
  {
    BlankBefore(c, o + 1, s);
    blank := Cut(c, o + 1, s);
    hide IsBlank, SkipWhitespace;
    AtJoin(c, o + 1, blank, [close]);
    AtJoin(c, o, [open], blank + [close]);
  }

  lemma SkipTwice(c: seq<Byte>, p: nat)
    requires p <= |c|
    ensures SkipWhitespace(c, SkipWhitespace(c, p)) == SkipWhitespace(c, p)
  {
    if SkipSpace(c, p) < |c| {
      SkipBlanks(c, SkipSpace(c, p), 0);
    }
  }

  lemma ArrayBegins(c: seq<Byte>, o: nat, depth: nat) returns (s: nat)
    requires o < |c| && ParseArray(c, o, depth).Parsed?
    ensures depth < 1000 && SkipWhitespace(c, o + 1) == s && o < s < |c|
    ensures Sees(c, s, ']') || ParseElements(c, s - 1, depth + 1).Parsed?
  {
    hide SkipWhitespace, ParseElements;
    s := SkipWhitespace(c, o + 1);
  }

  lemma {:induction false} ArrayBack(c: seq<Byte>, o: nat, depth: nat) returns (w: Spelled)
    requires Ended(c) && AllHex(c) && o < |c| && Sees(c, o, '[') && ParseArray(c, o, depth).Parsed?
    ensures IsSpelled(w, depth) && At(c, o, Spell(w)) && ParseValue(c, o, depth) == Parsed(Meant(w, depth), o + |Spell(w)|)
    decreases |c| - o, 2
  {
    hide *;
    var s := ArrayBegins(c, o, depth);
    if Sees(c, s, ']') {
      var blank := EmptyBack(c, o, s, '[', ']');
      w := List(blank, []);
      ListBack(blank, [], depth);
    } else {
      SkipTwice(c, o + 1);
      var slots := ElementsBack(c, s - 1, depth + 1, o + 1);
      NoBlank();
      w := List("", slots);
      ListBack("", slots, depth);
      SeesIs(c, o);
      AtJoin(c, o, ['['], SlotsText(slots) + [']']);
    }
    ListReads(w.blank, w.slots, depth, c, o);
  }

  lemma NoBlank()
    ensures IsBlank("")
  {
  }

  lemma ListBack(blank: CString, slots: seq<Slot>, depth: nat)
    requires IsBlank(blank) && depth < 1000 && (slots != [] ==> SlotsFit(slots, depth + 1))
    ensures IsSpelled(List(blank, slots), depth)
    ensures SlotsFit(slots, depth + 1) && Meant(List(blank, slots), depth) == Array(MeantItems(slots, depth + 1))
    ensures Spell(List(blank, slots)) == ['['] + ((if slots == [] then blank else SlotsText(slots)) + [']'])
  {
    hide IsBlank, SlotsText;
  }

  /** The parser goes on behind the first element. */
  lemma FirstElement(c: seq<Byte>, o: nat, depth: nat) returns (v: nat, e: nat, t: nat)
    requires o < |c| && ParseElements(c, o, depth).Parsed?
    ensures v == SkipWhitespace(c, o + 1) && ParseValue(c, v, depth).Parsed? && ParseValue(c, v, depth).end == e
    ensures e <= |c| && t == SkipWhitespace(c, e)
    ensures if Sees(c, t, ',') then t < |c| && ParseElements(c, t, depth).Parsed? else Sees(c, t, ']')
  {
    hide SkipWhitespace, ParseValue;
    v := SkipWhitespace(c, o + 1);
    e := ParseValue(c, v, depth).end;
    t := SkipWhitespace(c, e);
  }

  /** A value with the blanks around it, between two bytes that are none. */
  lemma SlotBack(c: seq<Byte>, p: nat, v: nat, w: Spelled, depth: nat, e: nat, t: nat) returns (before: CString, after: CString)
    requires Ended(c) && p <= |c| && SkipWhitespace(c, p) == v && IsSpelled(w, depth) && At(c, v, Spell(w))
    requires e == v + |Spell(w)| && SkipWhitespace(c, e) == t < |c| && c[t] > ' '
    ensures IsBlank(before) && IsBlank(after) && v == p + |before| && t == e + |after| && p <= v <= e <= t
    ensures At(c, p, before) && At(c, e, after) && SkipWhitespace(c, t) == t
  {
    hide SkipWhitespace, IsSpelled, Spell, At, IsBlank;
    SpellBegins(w, depth);
    AtBefore(c, v, Spell(w));
    AtByte(c, v, Spell(w), 0);
    BlankBefore(c, p, v);
    BlankBefore(c, e, t);
    before, after := Cut(c, p, v), Cut(c, e, t);
  }

  lemma SlotJoin(c: seq<Byte>, p: nat, before: CString, v: CString, after: CString, tail: CString)
    requires At(c, p, before) && At(c, p + |before|, v) && At(c, p + |before| + |v|, after)
    requires At(c, p + |before| + |v| + |after|, tail)
    ensures At(c, p, before + (v + (after + tail)))
  {
    hide At;
    AtJoin(c, p + |before| + |v|, after, tail);
    AtJoin(c, p + |before|, v, after + tail);
    AtJoin(c, p, before, v + (after + tail));
  }

  /** The elements from `p` on; `o` is the bracket or comma before, or the byte before the first value. */
  lemma {:induction false} ElementsBack(c: seq<Byte>, o: nat, depth: nat, p: nat) returns (slots: seq<Slot>)
    requires Ended(c) && AllHex(c) && o < |c| && p <= |c| && SkipWhitespace(c, p) == SkipWhitespace(c, o + 1)
    requires ParseElements(c, o, depth).Parsed?
    ensures slots != [] && SlotsFit(slots, depth) && At(c, p, SlotsText(slots) + [']'])
    ensures SkipWhitespace(c, o + 1) == p + |slots[0].before|
    decreases |c| - o, 1
  {
    hide *;
    var v, e, t := FirstElement(c, o, depth);
    var w := ValueBack(c, v, depth);
    SeesIs(c, t);
    var before, after := SlotBack(c, p, v, w, depth, e, t);
    var slot := Slot(before, w, after);
    if Sees(c, t, ',') {
      var rest := ElementsBack(c, t, depth, t + 1);
      slots := [slot] + rest;
      assert slots[1..] == rest;
      SlotsFitMore(slots, depth);
      AtJoin(c, t, [','], SlotsText(rest) + [']']);
    } else {
      slots := [slot];
      assert slots[1..] == [];
      NoSlots(depth);
      SlotsFitMore(slots, depth);
    }
    SlotsTailIs(slots);
    SlotsJoin(c, p, slots, v, e, t);
  }

  lemma SlotsJoin(c: seq<Byte>, p: nat, slots: seq<Slot>, v: nat, e: nat, t: nat)
    requires slots != []
    requires var s := slots[0];
      && At(c, p, s.before) && v == p + |s.before| && At(c, v, Spell(s.value)) && e == v + |Spell(s.value)|
      && At(c, e, s.after) && t == e + |s.after| && At(c, t, SlotsTail(slots))
    ensures At(c, p, SlotsText(slots) + [']'])
  {
    hide *;
    SlotsParts(slots);
    SlotJoin(c, p, slots[0].before, Spell(slots[0].value), slots[0].after, SlotsTail(slots));
  }

  lemma NoSlots(depth: nat)
    ensures SlotsFit([], depth)
  {
  }

  lemma SlotsFitMore(slots: seq<Slot>, depth: nat)
    requires slots != [] && SlotsFit(slots[1..], depth)
    requires IsBlank(slots[0].before) && IsBlank(slots[0].after) && IsSpelled(slots[0].value, depth)
    ensures SlotsFit(slots, depth)
  {
    hide IsBlank, IsSpelled;
    assert slots == [slots[0]] + slots[1..];
  }

  // --- Members --------------------------------------------------------------------------------

  lemma ObjectBegins(c: seq<Byte>, o: nat, depth: nat) returns (s: nat)
    requires o < |c| && ParseObject(c, o, depth).Parsed?
    ensures depth < 1000 && SkipWhitespace(c, o + 1) == s && o < s < |c|
    ensures Sees(c, s, '}') || ParseMembers(c, s - 1, depth + 1).Parsed?
  {
    hide SkipWhitespace, ParseMembers;
    s := SkipWhitespace(c, o + 1);
  }

  lemma {:induction false} ObjectBack(c: seq<Byte>, o: nat, depth: nat) returns (w: Spelled)
    requires Ended(c) && AllHex(c) && o < |c| && Sees(c, o, '{') && ParseObject(c, o, depth).Parsed?
    ensures IsSpelled(w, depth) && At(c, o, Spell(w)) && ParseValue(c, o, depth) == Parsed(Meant(w, depth), o + |Spell(w)|)
    decreases |c| - o, 2
  {
    hide *;
    var s := ObjectBegins(c, o, depth);
    if Sees(c, s, '}') {
      var blank := EmptyBack(c, o, s, '{', '}');
      w := Record(blank, []);
      RecordBack(blank, [], depth);
    } else {
      SkipTwice(c, o + 1);
      var fields := MembersBack(c, s - 1, depth + 1, o + 1);
      NoBlank();
      w := Record("", fields);
      RecordBack("", fields, depth);
      SeesIs(c, o);
      AtJoin(c, o, ['{'], FieldsText(fields) + ['}']);
    }
    RecordReads(w.blank, w.fields, depth, c, o);
  }

  lemma RecordBack(blank: CString, fields: seq<Field>, depth: nat)
    requires IsBlank(blank) && depth < 1000 && (fields != [] ==> FieldsFit(fields, depth + 1))
    ensures IsSpelled(Record(blank, fields), depth)
    ensures FieldsFit(fields, depth + 1) && Meant(Record(blank, fields), depth) == Object(MeantMembers(fields, depth + 1))
    ensures Spell(Record(blank, fields)) == ['{'] + ((if fields == [] then blank else FieldsText(fields)) + ['}'])
  {
    hide IsBlank, ArePieces, FieldsText;
  }

  /** The parser goes on behind the first member. */
  lemma FirstMember(c: seq<Byte>, o: nat, depth: nat) returns (colon: nat, v: nat, e: nat, t: nat)
    requires o < |c| && ParseMembers(c, o, depth).Parsed?
    ensures ParseKey(c, o).Parsed? && ParseKey(c, o).end == colon < |c| && v == SkipWhitespace(c, colon + 1) && o < v
    ensures ParseValue(c, v, depth).Parsed? && ParseValue(c, v, depth).end == e <= |c|
    ensures t == SkipWhitespace(c, e)
    ensures if Sees(c, t, ',') then o < t < |c| && ParseMembers(c, t, depth).Parsed? else Sees(c, t, '}')
  {
    hide SkipWhitespace, ParseValue, ParseKey;
    colon := ParseKey(c, o).end;
    v := SkipWhitespace(c, colon + 1);
    e := ParseValue(c, v, depth).end;
    t := SkipWhitespace(c, e);
  }

  /** A name with the blanks around it, and the colon. */
  lemma NameBack(c: seq<Byte>, o: nat, p: nat, colon: nat)
    returns (s: nat, n: nat, before: CString, name: seq<Piece>, middle: CString)
    requires Ended(c) && AllHex(c) && o < |c| && p <= |c| && SkipWhitespace(c, p) == SkipWhitespace(c, o + 1)
    requires ParseKey(c, o).Parsed? && ParseKey(c, o).end == colon
    ensures IsBlank(before) && ArePieces(name) && IsBlank(middle) && Sees(c, colon, ':')
    ensures SkipWhitespace(c, o + 1) == s == p + |before| && n == s + |Enclosed(name)| && colon == n + |middle|
    ensures At(c, p, before) && At(c, s, Enclosed(name)) && At(c, n, middle)
  {
    s, n := KeyEnds(c, o, colon);
    hide *;
    name := StringBack(c, s);
    SeesIs(c, s);
    SeesIs(c, colon);
    BlankBefore(c, p, s);
    BlankBefore(c, n, colon);
    before, middle := Cut(c, p, s), Cut(c, n, colon);
  }

  lemma KeyEnds(c: seq<Byte>, o: nat, colon: nat) returns (s: nat, e: nat)
    requires o < |c| && ParseKey(c, o).Parsed? && ParseKey(c, o).end == colon
    ensures o + 1 < |c| && s == SkipWhitespace(c, o + 1) < |c| && Sees(c, s, '\"')
    ensures ParseString(c, s).Parsed? && ParseString(c, s).end == e <= |c|
    ensures SkipWhitespace(c, e) == colon && Sees(c, colon, ':')
  {
    s := SkipWhitespace(c, o + 1);
    e := ParseString(c, s).end;
    hide SkipWhitespace, ClosingQuote, DecodeString;
  }

  lemma FieldJoin(c: seq<Byte>, p: nat, before: CString, name: CString, middle: CString, gap: CString, v: CString,
                  after: CString, tail: CString)
    requires At(c, p, before) && At(c, p + |before|, name) && At(c, p + |before| + |name|, middle)
    requires At(c, p + |before| + |name| + |middle|, [':'])
    requires At(c, p + |before| + |name| + |middle| + 1, gap + (v + (after + tail)))
    ensures At(c, p, before + (name + (middle + ([':'] + (gap + (v + (after + tail)))))))
  {
    hide At;
    var rest := gap + (v + (after + tail));
    AtJoin(c, p + |before| + |name| + |middle|, [':'], rest);
    SlotJoin(c, p, before, name, middle, [':'] + rest);
  }

  /** The members from `p` on; `o` is the brace or comma before, or the byte before the first name. */
  lemma {:induction false} MembersBack(c: seq<Byte>, o: nat, depth: nat, p: nat) returns (fields: seq<Field>)
    requires Ended(c) && AllHex(c) && o < |c| && p <= |c| && SkipWhitespace(c, p) == SkipWhitespace(c, o + 1)
    requires ParseMembers(c, o, depth).Parsed?
    ensures fields != [] && FieldsFit(fields, depth) && At(c, p, FieldsText(fields) + ['}'])
    ensures o + 1 < |c| && SkipWhitespace(c, o + 1) == p + |fields[0].before|
    decreases |c| - o, 1
  {
    hide *;
    var colon, v, e, t := FirstMember(c, o, depth);
    var s, n, before, name, middle := NameBack(c, o, p, colon);
    var w := ValueBack(c, v, depth);
    SeesIs(c, t);
    SeesIs(c, colon);
    var gap, after := SlotBack(c, colon + 1, v, w, depth, e, t);
    var field := Field(before, name, middle, gap, w, after);
    if Sees(c, t, ',') {
      var rest := MembersBack(c, t, depth, t + 1);
      fields := [field] + rest;
      assert fields[1..] == rest;
      FieldsFitMore(fields, depth);
      AtJoin(c, t, [','], FieldsText(rest) + ['}']);
    } else {
      fields := [field];
      assert fields[1..] == [];
      NoFields(depth);
      FieldsFitMore(fields, depth);
    }
    FieldsTailIs(fields);
    FieldsJoin(c, p, fields, s, n, colon, v, e, t);
  }

  lemma FieldsJoin(c: seq<Byte>, p: nat, fields: seq<Field>, s: nat, n: nat, colon: nat, v: nat, e: nat, t: nat)
    requires fields != []
    requires var f := fields[0];
      && At(c, p, f.before) && s == p + |f.before| && At(c, s, Enclosed(f.name)) && n == s + |Enclosed(f.name)|
      && At(c, n, f.middle) && colon == n + |f.middle| && At(c, colon, [':'])
      && v == colon + 1 + |f.gap| && At(c, colon + 1, f.gap) && At(c, v, Spell(f.value))
      && e == v + |Spell(f.value)| && At(c, e, f.after) && t == e + |f.after| && At(c, t, FieldsTail(fields))
    ensures At(c, p, FieldsText(fields) + ['}'])
  {
    hide *;
    var f := fields[0];
    SlotJoin(c, colon + 1, f.gap, Spell(f.value), f.after, FieldsTail(fields));
    FieldJoin(c, p, f.before, Enclosed(f.name), f.middle, f.gap, Spell(f.value), f.after, FieldsTail(fields));
    FieldsParts(fields);
    ValueTailIs(fields);
  }

  lemma ValueTailIs(fields: seq<Field>)
    requires fields != []
    ensures ValueTail(fields) == [':'] + (fields[0].gap + (Spell(fields[0].value) + (fields[0].after + FieldsTail(fields))))
  {
  }

  lemma NoFields(depth: nat)
    ensures FieldsFit([], depth)
  {
  }

  lemma FieldsFitMore(fields: seq<Field>, depth: nat)
    requires fields != [] && FieldsFit(fields[1..], depth)
    requires var f := fields[0];
      && IsBlank(f.before) && IsBlank(f.middle) && IsBlank(f.gap) && IsBlank(f.after)
      && ArePieces(f.name) && IsSpelled(f.value, depth)
    ensures FieldsFit(fields, depth)
  {
    hide IsBlank, IsSpelled, ArePieces;
    assert fields == [fields[0]] + fields[1..];
  }

  // --- Documents ---------------------------------------------------------------------------------

  /** A text with a value: a byte order mark or none, blanks, the value, and blanks. */
  datatype Document = Document(bom: bool, before: CString, value: Spelled, after: CString)

  ghost predicate IsDocument(d: Document)
  {
    IsSpelled(d.value, 0) && IsBlank(d.before) && IsBlank(d.after)
  }

  function Written(d: Document): CString
  {
    Mark(d.bom) + d.before + Spell(d.value) + d.after
  }

  /** Every `\u` of the text that is not escaped has four hexadecimal digits behind it. */
  ghost predicate HexEverywhere(s: CString)
  {
    AllHex(s + ['\0'])
  }

  /** The blanks at the end of a text. */
  lemma BlankAtEnd(c: seq<Byte>, e: nat)
    requires Ended(c) && e < |c| && SkipWhitespace(c, e) == |c| - 1
    ensures IsBlank(Cut(c, e, |c| - 1))
  {
    Skipped(c, e);
  }

  lemma DocumentParsed(c: seq<Byte>, requireNull: bool) returns (o: nat, p: nat, e: nat)
    requires Ended(c) && ParseDocument(c, requireNull).Parsed?
    ensures AfterBom(c) == o && SkipWhitespace(c, o) == p && ParseValue(c, p, 0).Parsed? && ParseValue(c, p, 0).end == e <= |c|
    ensures ParseDocument(c, requireNull).value == ParseValue(c, p, 0).value
    ensures if requireNull then SkipWhitespace(c, e) == |c| - 1 == ParseDocument(c, requireNull).end
            else ParseDocument(c, requireNull).end == e
  {
    hide SkipWhitespace, ParseValue;
    o := AfterBom(c);
    p := SkipWhitespace(c, o);
    e := ParseValue(c, p, 0).end;
  }

  lemma MarkAt(c: seq<Byte>)
    ensures At(c, 0, Mark(AfterBom(c) == 3)) && AfterBom(c) == |Mark(AfterBom(c) == 3)|
  {
  }

  lemma Joined(c: seq<Byte>, x: CString, y: CString, v: CString, a: CString)
    requires At(c, 0, x) && At(c, |x|, y) && At(c, |x| + |y|, v) && At(c, |x| + |y| + |v|, a)
    ensures At(c, 0, x + y + v + a)
  {
    hide At;
    AtJoin(c, 0, x, y);
    AtJoin(c, 0, x + y, v);
    AtJoin(c, 0, x + y + v, a);
  }

  lemma DocumentAt(c: seq<Byte>, requireNull: bool) returns (d: Document)
    requires Ended(c) && AllHex(c) && ParseDocument(c, requireNull).Parsed?
    ensures IsDocument(d) && ParseDocument(c, requireNull).value == Meant(d.value, 0) && At(c, 0, Written(d))
    ensures |Written(d)| == ParseDocument(c, requireNull).end < |c|
    ensures if requireNull then |Written(d)| == |c| - 1 else d.after == ""
  {
    var o, p, e := DocumentParsed(c, requireNull);
    hide *;
    var w := ValueBack(c, p, 0);
    var before := BlanksBefore(c, o, p, w);
    var after := BlanksAfter(c, e, requireNull);
    d := Document(AfterBom(c) == 3, before, w, after);
    DocumentIs(d);
    WrittenAt(c, d, p, e);
  }

  lemma WrittenAt(c: seq<Byte>, d: Document, p: nat, e: nat)
    requires d.bom == (AfterBom(c) == 3) && At(c, AfterBom(c), d.before) && p == AfterBom(c) + |d.before|
    requires At(c, p, Spell(d.value)) && e == p + |Spell(d.value)| && At(c, e, d.after)
    ensures At(c, 0, Written(d)) && |Written(d)| == e + |d.after|
  {
    hide At, Spell, AfterBom, Mark;
    MarkAt(c);
    Joined(c, Mark(d.bom), d.before, Spell(d.value), d.after);
  }

  lemma BlanksAfter(c: seq<Byte>, e: nat, requireNull: bool) returns (after: CString)
    requires Ended(c) && e < |c| && (requireNull ==> SkipWhitespace(c, e) == |c| - 1)
    ensures IsBlank(after) && At(c, e, after) && if requireNull then e + |after| == |c| - 1 else after == ""
  {
    if requireNull {
      BlankAtEnd(c, e);
      after := Cut(c, e, |c| - 1);
    } else {
      after := "";
    }
  }

  lemma DocumentIs(d: Document)
    requires IsSpelled(d.value, 0) && IsBlank(d.before) && IsBlank(d.after)
    ensures IsDocument(d)
  {
  }

  lemma BlanksBefore(c: seq<Byte>, o: nat, p: nat, w: Spelled) returns (before: CString)
    requires Ended(c) && o <= |c| && SkipWhitespace(c, o) == p && IsSpelled(w, 0) && At(c, p, Spell(w))
    ensures IsBlank(before) && At(c, o, before) && p == o + |before| && p + |Spell(w)| < |c|
  {
    hide *;
    SpellBegins(w, 0);
    AtByte(c, p, Spell(w), 0);
    AtBefore(c, p, Spell(w));
    BlankBefore(c, o, p);
    before := Cut(c, o, p);
  }

  /** What has been read up to the end is the text of a document that stands for the tree. */
  lemma DocumentBack(s: CString, requireNull: bool) returns (d: Document)
    requires HexEverywhere(s) && ParseCString(s, requireNull).Parsed?
    ensures IsDocument(d) && ParseCString(s, requireNull).value == Meant(d.value, 0)
    ensures requireNull ==> s == Written(d)
    ensures !requireNull ==> d.after == "" && ParseCString(s, false).end == |Written(d)| <= |s| && s[..|Written(d)|] == Written(d)
  {
    var c: seq<Byte> := s + ['\0'];
    assert ParseCString(s, requireNull) == ParseDocument(c, requireNull) && Ended(c) && AllHex(c);
    hide AllHex, ParseDocument, IsDocument, Written, Meant;
    d := DocumentAt(c, requireNull);
    assert s[..|Written(d)|] == c[..|Written(d)|];
  }

  /**
   The parser accepts exactly the documents of the grammar, and reads each as the
   tree it stands for. Texts with a `\u` that has not four digits behind it are
   excepted; `ReadsMore` gives one that is accepted all the same.
   */
  lemma AcceptsIff(s: CString, j: Json)
    requires HexEverywhere(s)
    ensures (ParseCString(s, true).Parsed? && ParseCString(s, true).value == j)
            <==> exists d: Document :: IsDocument(d) && Written(d) == s && Meant(d.value, 0) == j
  {
    hide ParseCString, HexEverywhere, IsSpelled, Meant, Written, IsBlank;
    if ParseCString(s, true).Parsed? && ParseCString(s, true).value == j {
      var d := DocumentBack(s, true);
    }
    forall d: Document | IsDocument(d) && Written(d) == s && Meant(d.value, 0) == j
      ensures ParseCString(s, true).Parsed? && ParseCString(s, true).value == j
    {
      WrittenReads(d);
    }
  }

  lemma WrittenReads(d: Document)
    requires IsDocument(d)
    ensures ParseCString(Written(d), true) == Parsed(Meant(d.value, 0), |Written(d)|)
  {
    hide Spell, IsBlank, IsSpelled, Mark;
    DocumentReads(d.value, d.bom, d.before, d.after, true);
  }

  /** Four bytes of a string that are not all hexadecimal digits. */
  ghost predicate Odd(digits: CString)
  {
    |digits| == 4 && '\"' !in digits && '\\' !in digits && exists k :: 0 <= k < 4 && !IsHexDigit(digits[k])
  }

  /** A `\u` with other bytes behind it is read as U+0000, which ends the string; the grammar has no such text. */
  lemma ReadsMore(digits: CString)
    requires Odd(digits)
    ensures ParseCString(['\"', '\\', 'u'] + digits + ['\"'], true) == Parsed(String(""), 8)
  {
    var s: CString := ['\"', '\\', 'u'] + digits + ['\"'];
    var c: seq<Byte> := s + ['\0'];
    assert ParseCString(s, true) == ParseDocument(c, true);
    OddString(c, digits);
    hide ParseString, Odd, ParseValue;
    SkipBlanks(c, 0, 0);
    StringAt(c, 0, 0, "", 8);
    assert SkipSpace(c, 9) == 9 && SkipSpace(c, 8) == 9;
  }

  lemma OddString(c: seq<Byte>, digits: CString)
    requires Odd(digits) && c == ['\"', '\\', 'u'] + digits + ['\"'] + ['\0']
    ensures ParseString(c, 0) == Parsed("", 8)
  {
    OddQuote(c, digits);
    OddHex(c, digits);
    hide Hex4, Odd, ClosingQuote;
    assert c[1] == '\\' && c[2] == 'u';
    assert Utf16(c, 1, 7) == Some(Literal(0, 6));
    hide Utf16;
    assert DecodeString(c, 7, 7) == Some([]);
    assert Utf8(0) == ['\0'];
    assert DecodeString(c, 1, 7) == Some(['\0'] + []);
    assert StringIn(['\0'] + []) == "";
  }

  lemma OddQuote(c: seq<Byte>, digits: CString)
    requires Odd(digits) && c == ['\"', '\\', 'u'] + digits + ['\"'] + ['\0']
    ensures ClosingQuote(c, 1) == Some(7)
  {
    assert c[3] == digits[0] && c[4] == digits[1] && c[5] == digits[2] && c[6] == digits[3];
    hide IsHexDigit;
    assert ClosingQuote(c, 7) == Some(7);
    assert ClosingQuote(c, 5) == ClosingQuote(c, 6) == ClosingQuote(c, 7);
    assert ClosingQuote(c, 3) == ClosingQuote(c, 4) == ClosingQuote(c, 5);
  }

  lemma OddHex(c: seq<Byte>, digits: CString)
    requires Odd(digits) && c == ['\"', '\\', 'u'] + digits + ['\"'] + ['\0']
    ensures Hex4(c, 3) == 0
  {
    assert c[3] == digits[0] && c[4] == digits[1] && c[5] == digits[2] && c[6] == digits[3];
    var k :| 0 <= k < 4 && !IsHexDigit(digits[k]);
    NoDigit(digits[k]);
    hide IsHexDigit, HexValue;
  }

  lemma NoDigit(b: Byte)
    requires !IsHexDigit(b)
    ensures HexValue(b) == None
  {
  }
}
