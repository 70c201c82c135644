/**
 What the parser makes of a text: functions from a buffer and an offset to an
 item and the offset behind it. The class of the parser is proved against these,
 and the round trip with the printer is proved about them.
 */
module ParseText {
  import opened Bytes
  import opened Json
  import JsonText

  /**
   The outcome of reading something. `Unmodelled` is for numbers with a fraction
   or an exponent, or outside the range of `int`, about which nothing is said.
   */
  datatype Result<+T> = Parsed(value: T, end: nat) | Failed | Unmodelled

  // --- White space --------------------------------------------------------------

  /** All bytes up to the blank are skipped, NUL included. */
  function SkipSpace(c: seq<Byte>, o: nat): (r: nat)
    requires o <= |c|
    ensures o <= r <= |c|
    ensures r < |c| ==> c[r] > ' '
    decreases |c| - o
  {
    if o < |c| && c[o] <= ' ' then SkipSpace(c, o + 1) else o
  }

  /** `buffer_skip_whitespace`, which steps back from the end of the buffer. */
  function SkipWhitespace(c: seq<Byte>, o: nat): (r: nat)
    requires o <= |c|
    ensures o <= r <= |c|
    ensures o < |c| ==> r < |c|
  {
    if o < |c| && SkipSpace(c, o) == |c| then |c| - 1 else SkipSpace(c, o)
  }

  // --- Strings ------------------------------------------------------------------

  /** The first quotation mark from `i` on that is not escaped. */
  function ClosingQuote(c: seq<Byte>, i: nat): (r: Option<nat>)
    ensures r.Some? ==> i <= r.value < |c| && c[r.value] == '\"'
    decreases |c| - i
  {
    if i >= |c| then None
    else if c[i] == '\"' then Some(i)
    else if c[i] == '\\' then if i + 1 >= |c| then None else ClosingQuote(c, i + 2)
    else ClosingQuote(c, i + 1)
  }

  function HexValue(c: char): (r: Option<nat>)
    ensures r.Some? ==> r.value < 16
  {
    if '0' <= c <= '9' then Some(c as int - 48)
    else if 'A' <= c <= 'F' then Some(c as int - 55)
    else if 'a' <= c <= 'f' then Some(c as int - 87)
    else None
  }

  /** `parse_hex4`: 0 if one of the four bytes is not a digit. */
  function Hex4(c: seq<Byte>, i: nat): (r: nat)
    requires i + 4 <= |c|
    ensures r < 0x10000
  {
    var d0, d1, d2, d3 := HexValue(c[i]), HexValue(c[i + 1]), HexValue(c[i + 2]), HexValue(c[i + 3]);
    if d0.None? || d1.None? || d2.None? || d3.None? then 0
    else 0x1000 * d0.value + 0x100 * d1.value + 0x10 * d2.value + d3.value
  }

  function ByteOf(n: nat): Byte
    requires n < 256
  {
    n as char
  }

  /** The UTF-8 form of a code point (RFC 3629, section 3). */
  function Utf8(cp: nat): (r: seq<Byte>)
    requires cp <= 0x10FFFF
    ensures 1 <= |r| <= 4
  {
    if cp < 0x80 then [ByteOf(cp)]
    else if cp < 0x800 then [ByteOf(0xC0 + cp / 0x40), ByteOf(0x80 + cp % 0x40)]
    else if cp < 0x10000 then
      [ByteOf(0xE0 + cp / 0x1000), ByteOf(0x80 + cp / 0x40 % 0x40), ByteOf(0x80 + cp % 0x40)]
    else
      [ByteOf(0xF0 + cp / 0x40000), ByteOf(0x80 + cp / 0x1000 % 0x40), ByteOf(0x80 + cp / 0x40 % 0x40),
       ByteOf(0x80 + cp % 0x40)]
  }

  /** A code point and how many bytes of the text denote it. */
  datatype Literal = Literal(codepoint: nat, length: nat)

  /** One or two sequences of the form `\uXXXX` at `i`, before `e`. */
  function Utf16(c: seq<Byte>, i: nat, e: nat): (r: Option<Literal>)
    requires i < e <= |c|
    ensures r.Some? ==> r.value.codepoint <= 0x10FFFF
    ensures r.Some? ==> i + r.value.length <= e
    ensures r.Some? ==> if r.value.codepoint < 0x10000 then r.value.length == 6 else r.value.length == 12
  {
    if e - i < 6 then None
    else
      var first := Hex4(c, i + 2);
      if 0xDC00 <= first <= 0xDFFF then None
      else if 0xD800 <= first <= 0xDBFF then
        if e - (i + 6) < 6 || c[i + 6] != '\\' || c[i + 7] != 'u' then None
        else
          var second := Hex4(c, i + 8);
          if second < 0xDC00 || second > 0xDFFF then None
          else Some(Literal(0x10000 + first % 0x400 * 0x400 + second % 0x400, 12))
      else Some(Literal(first, 6))
  }

  /** The byte that a two-character escape stands for. */
  function SimpleEscape(c: char): Option<Byte>
  {
    match c
    case 'b' => Some('\U{0008}')
    case 'f' => Some('\U{000C}')
    case 'n' => Some('\n')
    case 'r' => Some('\r')
    case 't' => Some('\t')
    case '\"' => Some('\"')
    case '\\' => Some('\\')
    case '/' => Some('/')
    case _ => None
  }

  /** The bytes a string literal stands for, from `i` up to the closing quotation mark at `e`. */
  function DecodeString(c: seq<Byte>, i: nat, e: nat): Option<seq<Byte>>
    requires e < |c|
    decreases |c| - i
  {
    if i >= e then Some([])
    else if c[i] != '\\' then Then([c[i]], DecodeString(c, i + 1, e))
    else if c[i + 1] == 'u' then
      match Utf16(c, i, e)
      case None => None
      case Some(l) => Then(Utf8(l.codepoint), DecodeString(c, i + l.length, e))
    else
      match SimpleEscape(c[i + 1])
      case None => None
      case Some(b) => Then([b], DecodeString(c, i + 2, e))
  }

  function Then(bytes: seq<Byte>, rest: Option<seq<Byte>>): Option<seq<Byte>>
  {
    match rest case None => None case Some(more) => Some(bytes + more)
  }

  /** `parse_string`; the value is a C string, which ends at the first NUL. */
  function ParseString(c: seq<Byte>, o: nat): (r: Result<CString>)
    requires o < |c|
    ensures r.Parsed? ==> o < r.end <= |c|
  {
    if c[o] != '\"' then Failed
    else
      match ClosingQuote(c, o + 1)
      case None => Failed
      case Some(e) =>
        match DecodeString(c, o + 1, e)
        case None => Failed
        case Some(bytes) => Parsed(StringIn(bytes), e + 1)
  }

  // --- Numbers --------------------------------------------------------------------

  predicate IsNumberChar(c: char)
  {
    IsDigit(c) || c == '+' || c == '-' || c == 'e' || c == 'E' || c == '.'
  }

  /** Where a run of bytes that numbers are made of ends. */
  function NumberEnd(c: seq<Byte>, o: nat): (r: nat)
    requires o <= |c|
    ensures o <= r <= |c|
    ensures forall i :: o <= i < r ==> IsNumberChar(c[i])
    ensures r < |c| ==> !IsNumberChar(c[r])
    decreases |c| - o
  {
    if o < |c| && IsNumberChar(c[o]) then NumberEnd(c, o + 1) else o
  }

  function DigitsEnd(c: seq<Byte>, o: nat): (r: nat)
    requires o <= |c|
    ensures o <= r <= |c|
    ensures forall i :: o <= i < r ==> IsDigit(c[i])
    ensures r < |c| ==> !IsDigit(c[r])
    decreases |c| - o
  {
    if o < |c| && IsDigit(c[o]) then DigitsEnd(c, o + 1) else o
  }

  function SignedValue(negative: bool, magnitude: nat): int
  {
    if negative then -(magnitude as int) else magnitude
  }

  /** `parse_number`, as far as `strtod` reads an integer. */
  function ParseNumber(c: seq<Byte>, o: nat): (r: Result<Json>)
    requires o < |c|
    ensures r.Parsed? ==> o < r.end <= |c|
  {
    var s := if c[o] == '-' then o + 1 else o;
    var e := DigitsEnd(c, s);
    if e == s then (if s < |c| && c[s] == '.' then Unmodelled else Failed)
    else if e < |c| && (c[e] == '.' || c[e] == 'e' || c[e] == 'E') then Unmodelled
    else
      var magnitude := DigitsValue(0, c[s..e]);
      var n := SignedValue(c[o] == '-', magnitude);
      if INT_MIN <= n <= INT_MAX then Parsed(Number(n), e) else Unmodelled
  }

  // --- Values ----------------------------------------------------------------------

  predicate At(c: seq<Byte>, o: nat, s: CString)
  {
    o + |s| <= |c| && c[o..o + |s|] == s
  }

  predicate Sees(c: seq<Byte>, o: nat, b: char)
  {
    o < |c| && c[o] == b
  }

  /** `parse_value`. */
  function ParseValue(c: seq<Byte>, o: nat, depth: nat): (r: Result<Json>)
    requires o <= |c|
    ensures r.Parsed? ==> o < r.end <= |c|
    decreases |c| - o, 3
  {
    if At(c, o, "null") then Parsed(Null, o + 4)
    else if At(c, o, "false") then Parsed(False, o + 5)
    else if At(c, o, "true") then Parsed(True, o + 4)
    else if Sees(c, o, '\"') then
      match ParseString(c, o)
      case Parsed(s, end) => Parsed(String(s), end)
      case Failed => Failed
      case Unmodelled => Unmodelled
    else if o < |c| && (c[o] == '-' || IsDigit(c[o])) then ParseNumber(c, o)
    else if Sees(c, o, '[') then ParseArray(c, o, depth)
    else if Sees(c, o, '{') then ParseObject(c, o, depth)
    else Failed
  }

  /** `parse_array`. */
  function ParseArray(c: seq<Byte>, o: nat, depth: nat): (r: Result<Json>)
    requires o < |c|
    ensures r.Parsed? ==> o < r.end <= |c|
    decreases |c| - o, 2
  {
    if depth >= JsonText.NESTING_LIMIT then Failed
    else
      var s := SkipWhitespace(c, o + 1);
      if Sees(c, s, ']') then Parsed(Array([]), s + 1)
      else if s >= |c| then Failed
      else
        match ParseElements(c, s - 1, depth + 1)
        case Parsed(items, end) => Parsed(Array(items), end)
        case Failed => Failed
        case Unmodelled => Unmodelled
  }

  /** The elements behind the bracket or comma at `o`, and the closing bracket. */
  function ParseElements(c: seq<Byte>, o: nat, depth: nat): (r: Result<seq<Json>>)
    requires o < |c|
    ensures r.Parsed? ==> o < r.end <= |c|
    decreases |c| - o, 1
  {
    match ParseValue(c, SkipWhitespace(c, o + 1), depth)
    case Failed => Failed
    case Unmodelled => Unmodelled
    case Parsed(j, e) =>
      var t := SkipWhitespace(c, e);
      if Sees(c, t, ',') then
        match ParseElements(c, t, depth)
        case Parsed(rest, end) => Parsed([j] + rest, end)
        case Failed => Failed
        case Unmodelled => Unmodelled
      else if Sees(c, t, ']') then Parsed([j], t + 1)
      else Failed
  }

  /** `parse_object`. */
  function ParseObject(c: seq<Byte>, o: nat, depth: nat): (r: Result<Json>)
    requires o < |c|
    ensures r.Parsed? ==> o < r.end <= |c|
    decreases |c| - o, 2
  {
    if depth >= JsonText.NESTING_LIMIT then Failed
    else
      var s := SkipWhitespace(c, o + 1);
      if Sees(c, s, '}') then Parsed(Object([]), s + 1)
      else if s >= |c| then Failed
      else
        match ParseMembers(c, s - 1, depth + 1)
        case Parsed(ms, end) => Parsed(Object(ms), end)
        case Failed => Failed
        case Unmodelled => Unmodelled
  }

  /** A name and the offset of its colon. */
  function ParseKey(c: seq<Byte>, o: nat): (r: Result<CString>)
    requires o < |c|
    ensures r.Parsed? ==> o + 1 < r.end < |c|
  {
    if o + 1 >= |c| then Failed
    else
      match ParseString(c, SkipWhitespace(c, o + 1))
      case Failed => Failed
      case Unmodelled => Unmodelled
      case Parsed(key, e) =>
        var t := SkipWhitespace(c, e);
        if Sees(c, t, ':') then Parsed(key, t) else Failed
  }

  /** The member behind the brace or comma at `o`. */
  function ParseMember(c: seq<Byte>, o: nat, depth: nat): (r: Result<Entry<Json>>)
    requires o < |c|
    ensures r.Parsed? ==> o < r.end <= |c|
    decreases |c| - o, 0
  {
    match ParseKey(c, o)
    case Failed => Failed
    case Unmodelled => Unmodelled
    case Parsed(key, colon) =>
      match ParseValue(c, SkipWhitespace(c, colon + 1), depth)
      case Failed => Failed
      case Unmodelled => Unmodelled
      case Parsed(j, e) => Parsed(Entry(key, j), e)
  }

  /** The members behind the brace or comma at `o`, and the closing brace. */
  function ParseMembers(c: seq<Byte>, o: nat, depth: nat): (r: Result<seq<Entry<Json>>>)
    requires o < |c|
    ensures r.Parsed? ==> o < r.end <= |c|
    decreases |c| - o, 1
  {
    match ParseMember(c, o, depth)
    case Failed => Failed
    case Unmodelled => Unmodelled
    case Parsed(member, e) =>
      var t := SkipWhitespace(c, e);
      if Sees(c, t, ',') then
        match ParseMembers(c, t, depth)
        case Parsed(rest, end) => Parsed([member] + rest, end)
        case Failed => Failed
        case Unmodelled => Unmodelled
      else if Sees(c, t, '}') then Parsed([member], t + 1)
      else Failed
  }

  // --- Documents ----------------------------------------------------------------------

  /** `skip_utf8_bom`. */
  function AfterBom(c: seq<Byte>): (r: nat)
    ensures r <= |c|
  {
    if |c| > 4 && c[0] == '\U{00EF}' && c[1] == '\U{00BB}' && c[2] == '\U{00BF}' then 3 else 0
  }

  /** `cJSON_ParseWithLengthOpts`; the end is where the caller is told that parsing stopped. */
  function ParseDocument(c: seq<Byte>, requireNull: bool): Result<Json>
  {
    if c == [] then Failed
    else
      match ParseValue(c, SkipWhitespace(c, AfterBom(c)), 0)
      case Failed => Failed
      case Unmodelled => Unmodelled
      case Parsed(j, e) =>
        if !requireNull then Parsed(j, e)
        else
          var t := SkipWhitespace(c, e);
          if Sees(c, t, '\0') then Parsed(j, t) else Failed
  }

  /** `cJSON_ParseWithOpts`: the buffer is the string and its NUL. */
  function ParseCString(s: CString, requireNull: bool): Result<Json>
  {
    ParseDocument(s + ['\0'], requireNull)
  }
}
