/**
 The layout of printed texts, as texts of the grammar; parsing what was printed gives
 the tree back, and stops at the end of the text.
 */
module RoundTrip {
  import opened Bytes
  import opened Sequences
  import opened Json
  import opened JsonText
  import opened ParseText
  import opened Grammar

  // --- Strings ------------------------------------------------------------------

  /** How a byte is printed: escaped in two characters, in six, or not at all. */
  function Printed(c: CChar): Piece
  {
    if c == '\"' then Short(0)
    else if c == '\\' then Short(1)
    else if c == '\U{0008}' then Short(3)
    else if c == '\U{000C}' then Short(4)
    else if c == '\n' then Short(5)
    else if c == '\r' then Short(6)
    else if c == '\t' then Short(7)
    else if c < ' ' then Unit(c as int, ['0', '0', if c < '\U{0010}' then '0' else '1', "0123456789abcdef"[c as int % 16]])
    else Plain(c)
  }

  function PrintedString(s: CString): (ps: seq<Piece>)
    ensures |ps| == |s| && forall i :: 0 <= i < |s| ==> ps[i] == Printed(s[i])
  {
    seq(|s|, i requires 0 <= i < |s| => Printed(s[i]))
  }

  lemma PrintedByte(c: CChar)
    ensures IsPiece(Printed(c)) && PieceText(Printed(c)) == EscapeByte(c) && PieceBytes(Printed(c)) == [c]
  {
    if Printed(c).Unit? {
      hide IsPiece, PieceText, PieceBytes;
      ControlByte(c);
    } else {
      hide Writes16, Utf8, HexDigit;
    }
  }

  lemma ControlByte(c: CChar)
    requires Printed(c).Unit? && c < ' '
    ensures IsPiece(Printed(c)) && PieceText(Printed(c)) == EscapeByte(c) && PieceBytes(Printed(c)) == [c]
  {
    var n, p := c as int, Printed(c);
    DigitIs(n / 16);
    DigitIs(n % 16);
    assert n / 0x1000 == 0 && n / 0x100 % 0x10 == 0 && n / 0x10 % 0x10 == n / 16 <= 1;
    assert p.code == n && p.digits == ['0', '0', HexDigit(n / 16), HexDigit(n % 16)];
    assert IsHex('0', 0) && IsHex(HexDigit(n / 16), n / 16) && IsHex(HexDigit(n % 16), n % 16);
    hide HexDigit, IsHex, Printed;
  }

  lemma {:induction false} PrintedText(s: CString)
    ensures ArePieces(PrintedString(s)) && PiecesText(PrintedString(s)) == Escaped(s)
    ensures PiecesBytes(PrintedString(s)) == s && StringIn(s) == s
  {
    hide Printed, EscapeByte, PieceText, PieceBytes, IsPiece;
    forall p | p in PrintedString(s) ensures IsPiece(p) {
      var i :| 0 <= i < |s| && PrintedString(s)[i] == p;
      PrintedByte(s[i]);
    }
    if s != [] {
      PrintedByte(s[0]);
      PrintedText(s[1..]);
      assert PrintedString(s)[1..] == PrintedString(s[1..]);
      assert s == [s[0]] + s[1..];
    }
    assert StringIn(s) == s;
  }

  /** Decoding undoes the escapes of the printer. */
  lemma EscapedRoundTrip(c: seq<Byte>, i: nat, s: CString)
    requires At(c, i, Escaped(s)) && Sees(c, i + |Escaped(s)|, '\"')
    ensures ClosingQuote(c, i) == Some(i + |Escaped(s)|)
    ensures DecodeString(c, i, i + |Escaped(s)|) == Some(s)
  {
    hide ClosingQuote, DecodeString, PiecesText, Escaped, At, ArePieces, PiecesBytes;
    PrintedText(s);
    PiecesRead(c, i, PrintedString(s));
  }

  /** An integer that was printed is read back. */
  lemma NumberRoundTrip(c: seq<Byte>, o: nat, n: int)
    requires At(c, o, Signed(n)) && Stops(c, o + |Signed(n)|) && INT_MIN <= n <= INT_MAX
    ensures ParseNumber(c, o) == Parsed(Number(n), o + |Signed(n)|)
  {
    var w := Numeral(n < 0, Decimal(Unsigned(n)));
    LayoutNumber(n, false, 0);
    hide At, Stops, ParseNumber, Decimal;
    NumeralReads(c, o, n < 0, Decimal(Unsigned(n)));
  }

  // --- Layout -----------------------------------------------------------------------

  function Unsigned(n: int): nat
  {
    if n < 0 then -n else n
  }

  /**
   How the printer lays out a tree that stands at nesting level `depth`. Formatted, the
   elements of an array stand on one line, a blank behind each comma; each member of an
   object stands on a line of its own, as many tabs before it as it is deep, with a tab
   behind the colon; the closing brace stands below its first line. Unformatted, there
   are no blanks.
   */
  function Layout(j: Json, format: bool, depth: nat): Spelled
    decreases j, 0
  {
    match j
    case Number(n) => Numeral(n < 0, Decimal(Unsigned(n)))
    case String(s) => Quote(PrintedString(s))
    case Array(items) => List([], LayoutItems(items, format, depth + 1, true))
    case Object(ms) =>
      Record(if format then ['\n'] + Tabs(depth) else [], LayoutMembers(ms, format, depth + 1))
    case _ => Word(j)
  }

  function LayoutItems(items: seq<Json>, format: bool, depth: nat, first: bool): (r: seq<Slot>)
    ensures |r| == |items|
    decreases items, 0
  {
    if items == [] then []
    else [Slot(if format && !first then [' '] else [], Layout(items[0], format, depth), [])]
         + LayoutItems(items[1..], format, depth, false)
  }

  function LayoutMembers(ms: seq<Entry<Json>>, format: bool, depth: nat): (r: seq<Field>)
    requires depth > 0
    ensures |r| == |ms|
    decreases ms, 0
  {
    if ms == [] then []
    else
      var before: CString := if format then ['\n'] + Tabs(depth) else [];
      var gap: CString := if format then ['\t'] else [];
      var after: CString := if format && |ms| == 1 then ['\n'] + Tabs(depth - 1) else [];
      [Field(before, PrintedString(ms[0].key), [], gap, Layout(ms[0].item, format, depth), after)]
      + LayoutMembers(ms[1..], format, depth)
  }

  /** The text lies as laid out, and means the tree. */
  ghost predicate LaidOut(j: Json, format: bool, depth: nat)
  {
    var w := Layout(j, format, depth);
    IsSpelled(w, depth) && Spell(w) == Text(j, format, depth) && Meant(w, depth) == j
  }

  lemma LayoutNumber(n: Int, format: bool, depth: nat)
    ensures LaidOut(Number(n), format, depth)
  {
    DecimalValue(Unsigned(n));
    assert [] + Decimal(Unsigned(n)) == Decimal(Unsigned(n));
  }

  lemma LayoutString(s: CString, format: bool, depth: nat)
    ensures LaidOut(String(s), format, depth)
  {
    hide PiecesText, PiecesBytes, ArePieces, Escaped, PrintedString;
    PrintedText(s);
    assert ['\"'] + (Escaped(s) + ['\"']) == ['\"'] + Escaped(s) + ['\"'];
  }

  lemma {:induction false} LayoutText(j: Json, format: bool, depth: nat)
    requires CanPrint(j, depth)
    ensures LaidOut(j, format, depth)
    decreases j, 1
  {
    match j
    case Number(n) => LayoutNumber(n, format, depth);
    case String(s) => LayoutString(s, format, depth);
    case Array(items) => LayoutArray(items, format, depth);
    case Object(ms) => LayoutObject(ms, format, depth);
    case _ =>
  }

  lemma {:induction false} LayoutArray(items: seq<Json>, format: bool, depth: nat)
    requires CanPrint(Array(items), depth)
    ensures LaidOut(Array(items), format, depth)
    decreases items, 1
  {
    var slots := LayoutItems(items, format, depth + 1, true);
    assert depth < 1000 && Layout(Array(items), format, depth) == List([], slots);
    assert Text(Array(items), format, depth) == ['['] + ItemsText(items, format, depth + 1) + [']'];
    LayoutElements(items, format, depth + 1, true);
    hide *;
    assert [] + ItemsText(items, format, depth + 1) == ItemsText(items, format, depth + 1);
    ListOf(slots, depth);
    AppendAssociates(['['], SlotsText(slots), [']']);
    LaidOutIs(Array(items), format, depth, List([], slots));
  }

  lemma LaidOutIs(j: Json, format: bool, depth: nat, w: Spelled)
    requires Layout(j, format, depth) == w && IsSpelled(w, depth) && Spell(w) == Text(j, format, depth) && Meant(w, depth) == j
    ensures LaidOut(j, format, depth)
  {
    hide Layout, IsSpelled, Spell, Text, Meant;
  }

  lemma ListOf(slots: seq<Slot>, depth: nat)
    requires depth < 1000 && SlotsFit(slots, depth + 1)
    ensures IsSpelled(List([], slots), depth) && Spell(List([], slots)) == ['['] + (SlotsText(slots) + [']'])
    ensures Meant(List([], slots), depth) == Array(MeantItems(slots, depth + 1))
  {
    hide MeantItems;
  }

  lemma {:induction false} LayoutElements(items: seq<Json>, format: bool, depth: nat, first: bool)
    requires forall x | x in items :: CanPrint(x, depth)
    ensures var slots := LayoutItems(items, format, depth, first);
      && SlotsFit(slots, depth) && MeantItems(slots, depth) == items
      && SlotsText(slots) == (if format && !first && items != [] then [' '] else []) + ItemsText(items, format, depth)
    decreases items, 0
  {
    if items != [] {
      LayoutText(items[0], format, depth);
      LayoutElements(items[1..], format, depth, false);
      hide LaidOut, Layout;
      ElementMeans(items, format, depth, first);
      ElementLies(items, format, depth, first);
    }
  }

  lemma ElementMeans(items: seq<Json>, format: bool, depth: nat, first: bool)
    requires items != [] && LaidOut(items[0], format, depth)
    requires var rest := LayoutItems(items[1..], format, depth, false);
      SlotsFit(rest, depth) && MeantItems(rest, depth) == items[1..]
    ensures var slots := LayoutItems(items, format, depth, first);
      SlotsFit(slots, depth) && MeantItems(slots, depth) == items
  {
    var s := Slot(if format && !first then [' '] else [], Layout(items[0], format, depth), []);
    var rest := LayoutItems(items[1..], format, depth, false);
    assert LayoutItems(items, format, depth, first) == [s] + rest;
    assert IsBlank(s.before) && IsBlank(s.after);
    hide LayoutItems, IsBlank, Meant, IsSpelled, Layout, Spell, Text;
    assert ([s] + rest)[1..] == rest;
    assert items == [items[0]] + items[1..];
  }

  lemma ElementLies(items: seq<Json>, format: bool, depth: nat, first: bool)
    requires items != [] && LaidOut(items[0], format, depth)
    requires SlotsText(LayoutItems(items[1..], format, depth, false))
          == (if format && |items| > 1 then [' '] else []) + ItemsText(items[1..], format, depth)
    ensures SlotsText(LayoutItems(items, format, depth, first))
         == (if format && !first then [' '] else []) + ItemsText(items, format, depth)
  {
    var before, gap: CString := if format && !first then [' '] else [], if format && |items| > 1 then [' '] else [];
    var comma: CString := if |items| > 1 then [','] else [];
    var s, rest := Slot(before, Layout(items[0], format, depth), []), LayoutItems(items[1..], format, depth, false);
    var t, more := Text(items[0], format, depth), ItemsText(items[1..], format, depth);
    assert LayoutItems(items, format, depth, first) == [s] + rest && ([s] + rest)[1..] == rest;
    assert Separator(format, |items| > 1) == comma + gap;
    hide LayoutItems, IsBlank, Meant, IsSpelled, Layout, Spell, Text, Separator;
    assert SlotsText([s] + rest) == (before + (t + ([] + comma))) + SlotsText(rest);
    assert ItemsText(items, format, depth) == (t + (comma + gap)) + more;
    hide SlotsText, ItemsText;
    JoinElement(before, t, comma, gap, more);
  }

  lemma JoinElement(before: CString, t: CString, comma: CString, gap: CString, more: CString)
    ensures (before + (t + ([] + comma))) + (gap + more) == before + ((t + (comma + gap)) + more)
  {
  }

  // --- Objects --------------------------------------------------------------------------

  function Line(format: bool): CString
  {
    if format then ['\n'] else []
  }

  lemma {:induction false} LayoutObject(ms: seq<Entry<Json>>, format: bool, depth: nat)
    requires CanPrint(Object(ms), depth)
    ensures LaidOut(Object(ms), format, depth)
    decreases ms, 1
  {
    var fields, blank := LayoutMembers(ms, format, depth + 1), Line(format) + Indent(format, depth);
    var closing := Closing(format, depth);
    assert closing == Indent(format, depth) + ['}'] && Opening(format) == ['{'] + Line(format);
    assert blank == (if format then ['\n'] + Tabs(depth) else []);
    var text := MembersText(ms, format, depth + 1);
    LayoutFields(ms, format, depth + 1);
    assert Text(Object(ms), format, depth) == Opening(format) + text + closing;
    assert Layout(Object(ms), format, depth) == Record(blank, fields);
    BlankLine(format, depth);
    assert depth < 1000 && (ms == [] ==> text == []);
    hide CanPrint, FieldsFit, FieldsText, MembersText, MeantMembers, LayoutMembers, Closing, Opening, Line, Indent;
    RecordOf(blank, fields, depth);
    RegroupObject(Line(format), text, closing);
    if ms == [] {
      assert text == [] && (blank + ['}']) == Line(format) + closing;
      assert Line(format) + ([] + closing) == Line(format) + closing;
    }
  }

  lemma BlankLine(format: bool, depth: nat)
    ensures IsBlank(Line(format) + Indent(format, depth))
  {
  }

  lemma RegroupObject(line: CString, text: CString, closing: CString)
    ensures (['{'] + line) + text + closing == ['{'] + (line + (text + closing))
  {
  }

  lemma RecordOf(blank: CString, fields: seq<Field>, depth: nat)
    requires depth < 1000 && IsBlank(blank) && FieldsFit(fields, depth + 1)
    ensures IsSpelled(Record(blank, fields), depth)
    ensures Spell(Record(blank, fields)) == ['{'] + ((if fields == [] then blank else FieldsText(fields)) + ['}'])
    ensures Meant(Record(blank, fields), depth) == Object(MeantMembers(fields, depth + 1))
  {
    hide MeantMembers, FieldsText;
  }

  /** The members, with the line ends that their first lines begin with. */
  ghost predicate FieldsLie(ms: seq<Entry<Json>>, format: bool, depth: nat)
    requires depth > 0
  {
    var fields := LayoutMembers(ms, format, depth);
    && FieldsFit(fields, depth) && MeantMembers(fields, depth) == ms
    && (ms != [] ==>
          FieldsText(fields) + ['}'] == Line(format) + (MembersText(ms, format, depth) + Closing(format, depth - 1)))
  }

  lemma {:induction false} LayoutFields(ms: seq<Entry<Json>>, format: bool, depth: nat)
    requires depth > 0 && forall e | e in ms :: CanPrint(e.item, depth)
    ensures FieldsLie(ms, format, depth)
    decreases ms, 0
  {
    if ms != [] {
      LayoutText(ms[0].item, format, depth);
      LayoutFields(ms[1..], format, depth);
      hide CanPrint, FieldsLie, LaidOut;
      LayoutField(ms, format, depth);
    }
  }

  /** The first member as a field. */
  function FirstLaid(ms: seq<Entry<Json>>, format: bool, depth: nat): Field
    requires ms != [] && depth > 0
  {
    Field(Line(format) + Indent(format, depth), PrintedString(ms[0].key), [], if format then ['\t'] else [],
          Layout(ms[0].item, format, depth), if |ms| == 1 then Line(format) + Indent(format, depth - 1) else [])
  }

  lemma LayoutField(ms: seq<Entry<Json>>, format: bool, depth: nat)
    requires ms != [] && depth > 0 && LaidOut(ms[0].item, format, depth) && FieldsLie(ms[1..], format, depth)
    ensures FieldsLie(ms, format, depth)
  {
    var fields, rest := LayoutMembers(ms, format, depth), LayoutMembers(ms[1..], format, depth);
    FieldMeans(ms, format, depth);
    FieldLies(ms, format, depth);
    assert fields[0] == FirstLaid(ms, format, depth) && fields[1..] == rest;
    assert ms == [ms[0]] + ms[1..];
    hide LayoutMembers, FieldsText, MembersText, Closing, Line, MeantMembers;
  }

  lemma FieldMeans(ms: seq<Entry<Json>>, format: bool, depth: nat)
    requires ms != [] && depth > 0 && LaidOut(ms[0].item, format, depth)
    requires var rest := LayoutMembers(ms[1..], format, depth); FieldsFit(rest, depth) && MeantMembers(rest, depth) == ms[1..]
    ensures var fields := LayoutMembers(ms, format, depth); FieldsFit(fields, depth) && MeantMembers(fields, depth) == ms
  {
    PrintedText(ms[0].key);
    BlankLine(format, depth);
    BlankLine(format, depth - 1);
    var f, rest := FirstLaid(ms, format, depth), LayoutMembers(ms[1..], format, depth);
    LayoutHead(ms, format, depth);
    assert IsBlank(f.before) && IsBlank(f.middle) && IsBlank(f.gap) && IsBlank(f.after);
    hide LayoutMembers, IsBlank, Meant, IsSpelled, PrintedString, Layout, PiecesBytes, ArePieces, StringIn, Spell, Text;
    hide Line, Indent;
    assert ([f] + rest)[1..] == rest;
    assert ms == [ms[0]] + ms[1..];
  }

  lemma LayoutHead(ms: seq<Entry<Json>>, format: bool, depth: nat)
    requires ms != [] && depth > 0
    ensures LayoutMembers(ms, format, depth) == [FirstLaid(ms, format, depth)] + LayoutMembers(ms[1..], format, depth)
  {
    hide Layout, PrintedString;
  }

  /** The first member and the rest, in both orders of putting the text together. */
  lemma {:induction false} FieldLies(ms: seq<Entry<Json>>, format: bool, depth: nat)
    requires ms != [] && depth > 0 && LaidOut(ms[0].item, format, depth) && FieldsLie(ms[1..], format, depth)
    ensures FieldsText(LayoutMembers(ms, format, depth)) + ['}']
         == Line(format) + (MembersText(ms, format, depth) + Closing(format, depth - 1))
  {
    var e, f, rest := ms[0], FirstLaid(ms, format, depth), LayoutMembers(ms[1..], format, depth);
    var gap: CString := if format then ['\t'] else [];
    LayoutHead(ms, format, depth);
    LineParts(format, depth - 1, gap);
    NameText(e.key);
    var line, indent, q, t := Line(format), Indent(format, depth), Quoted(e.key), Text(e.item, format, depth);
    var m, c := MembersText(ms[1..], format, depth), Closing(format, depth - 1);
    FieldsUnfold([f] + rest);
    assert ([f] + rest)[1..] == rest && |rest| == |ms| - 1;
    MembersUnfold(ms, format, depth);
    hide PrintedString, LayoutMembers, Layout, Text, Line, Indent, Closing, LineEnd, Colon, Quoted, Enclosed, Spell;
    hide FieldsText, MembersText, FieldsFit, MeantMembers, IsSpelled, Meant;
    if |ms| > 1 {
      JoinMore(line, indent, q, gap, t, FieldsText(rest), m, c);
    } else {
      NothingMore(format, depth);
      assert rest == [] && ms[1..] == [];
      JoinLast(line, indent, q, gap, t, Indent(format, depth - 1));
    }
  }

  lemma NameText(key: CString)
    ensures Enclosed(PrintedString(key)) == Quoted(key)
  {
    PrintedText(key);
    hide PiecesText, Escaped, PrintedString;
    AppendAssociates(['\"'], Escaped(key), ['\"']);
  }

  lemma LineParts(format: bool, depth: nat, gap: CString)
    requires gap == if format then ['\t'] else []
    ensures Colon(format) == [':'] + gap && Closing(format, depth) == Indent(format, depth) + ['}']
    ensures LineEnd(format, true) == [','] + Line(format) && LineEnd(format, false) == [] + Line(format)
  {
  }

  lemma NothingMore(format: bool, depth: nat)
    ensures FieldsText([]) == [] && MembersText([], format, depth) == []
  {
  }

  lemma MembersUnfold(ms: seq<Entry<Json>>, format: bool, depth: nat)
    requires ms != []
    ensures MembersText(ms, format, depth)
         == (((Indent(format, depth) + Quoted(ms[0].key) + Colon(format)) + Text(ms[0].item, format, depth))
             + LineEnd(format, |ms| > 1)) + MembersText(ms[1..], format, depth)
  {
    hide Text, Indent, Quoted, Colon, LineEnd;
  }

  lemma JoinMore(line: CString, indent: CString, q: CString, gap: CString, t: CString, fs: CString, m: CString, c: CString)
    requires fs + ['}'] == line + (m + c)
    ensures (((line + indent) + (q + ([] + ([':'] + (gap + (t + ([] + [',']))))))) + fs) + ['}']
         == line + (((((indent + q + ([':'] + gap)) + t) + ([','] + line)) + m) + c)
  {
    var head := line + indent + q + [':'] + gap + t + [','];
    assert ((line + indent) + (q + ([] + ([':'] + (gap + (t + ([] + [',']))))))) == head;
    assert (head + fs) + ['}'] == head + (fs + ['}']);
    assert line + (((((indent + q + ([':'] + gap)) + t) + ([','] + line)) + m) + c) == head + (line + (m + c));
  }

  lemma JoinLast(line: CString, indent: CString, q: CString, gap: CString, t: CString, last: CString)
    ensures (((line + indent) + (q + ([] + ([':'] + (gap + (t + ((line + last) + []))))))) + []) + ['}']
         == line + (((((indent + q + ([':'] + gap)) + t) + ([] + line)) + []) + (last + ['}']))
  {
  }

  // --- Documents -------------------------------------------------------------------------

  /** Nothing but the text of values, without blanks. */
  predicate Compact(w: Spelled)
  {
    match w
    case List(blank, slots) => blank == [] && forall s | s in slots :: s.before == [] == s.after && Compact(s.value)
    case Record(blank, fields) =>
      blank == [] && forall f | f in fields :: f.before == [] == f.middle && f.gap == [] == f.after && Compact(f.value)
    case _ => true
  }

  lemma {:induction false} LayoutCompact(j: Json, depth: nat)
    ensures Compact(Layout(j, false, depth))
    decreases j, 1
  {
    match j
    case Array(items) => ItemsCompact(items, depth + 1, true);
    case Object(ms) => MembersCompact(ms, depth + 1);
    case _ =>
  }

  lemma {:induction false} ItemsCompact(items: seq<Json>, depth: nat, first: bool)
    ensures forall s | s in LayoutItems(items, false, depth, first) :: s.before == [] == s.after && Compact(s.value)
    decreases items, 0
  {
    if items != [] {
      LayoutCompact(items[0], depth);
      ItemsCompact(items[1..], depth, false);
    }
  }

  lemma {:induction false} MembersCompact(ms: seq<Entry<Json>>, depth: nat)
    requires depth > 0
    ensures forall f | f in LayoutMembers(ms, false, depth) ::
      f.before == [] == f.middle && f.gap == [] == f.after && Compact(f.value)
    decreases ms, 0
  {
    if ms != [] {
      LayoutCompact(ms[0].item, depth);
      MembersCompact(ms[1..], depth);
    }
  }

  /** What is printed lies as laid out; without formatting it has no blanks outside strings. */
  lemma PrintedLayout(j: Json, format: bool)
    requires CanPrint(j, 0)
    ensures IsSpelled(Layout(j, format, 0), 0) && Text(j, format, 0) == Spell(Layout(j, format, 0))
    ensures !format ==> Compact(Layout(j, format, 0))
  {
    hide CanPrint, Layout, Text, Compact;
    LayoutText(j, format, 0);
    LayoutCompact(j, 0);
  }

  /**
   Parsing the text of a tree gives the tree back and stops exactly at the end
   of the text, formatted or not, also when nothing but the NUL may follow.
   */
  lemma PrintThenParse(j: Json, format: bool, requireNull: bool)
    requires CanPrint(j, 0)
    ensures ParseCString(Text(j, format, 0), requireNull) == Parsed(j, |Text(j, format, 0)|)
  {
    hide CanPrint, Layout, Text, ParseCString, Spell, Meant, IsSpelled;
    LayoutText(j, format, 0);
    DocumentReads(Layout(j, format, 0), false, [], [], requireNull);
    var t := Text(j, format, 0);
    assert Mark(false) + [] + t == t && t + [] == t;
  }

  /** The same for a buffer of which the text is only the beginning. */
  lemma PrintThenParseBefore(j: Json, format: bool, tail: seq<Byte>)
    requires CanPrint(j, 0)
    requires tail == [] || !IsNumberChar(tail[0])
    ensures ParseDocument(Text(j, format, 0) + tail, false) == Parsed(j, |Text(j, format, 0)|)
  {
    hide CanPrint, Layout, Text, ParseDocument, Spell, Meant, IsSpelled;
    LayoutText(j, format, 0);
    ValueReadsBefore(Layout(j, format, 0), tail);
  }
}
