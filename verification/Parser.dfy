/**
 The parser: a buffer with an offset and a nesting depth that the parse
 functions move. Each is proved against its function in `ParseText`; the string
 parser also against the size of the output it allocates.
 */
module Parser {
  import opened Bytes
  import opened Json
  import JsonText
  import opened ParseText

  // --- How much room a decoded string needs ----------------------------------------

  /** The backslashes at or behind `i` that begin an escape when `c` is scanned from `p` to `e`. */
  function Skips(c: seq<Byte>, p: nat, e: nat, i: nat): nat
    requires e <= |c|
    decreases e - p
  {
    if p >= e then 0
    else if c[p] == '\\' then (if p >= i then 1 else 0) + Skips(c, p + 2, e, i)
    else Skips(c, p + 1, e, i)
  }

  lemma {:induction false} SkipsBehind(c: seq<Byte>, p: nat, e: nat, i: nat)
    requires e <= |c|
    ensures i >= e ==> Skips(c, p, e, i) == 0
    ensures p <= i <= e ==> Skips(c, p, e, i) <= e - i
    ensures i <= p <= e ==> Skips(c, p, e, i) <= e - p
    decreases e - p
  {
    if p < e {
      SkipsBehind(c, p + 1, e, i);
      SkipsBehind(c, p + 2, e, i);
    }
  }

  lemma {:induction false} SkipsAll(c: seq<Byte>, p: nat, e: nat, i: nat)
    requires e <= |c| && i <= p
    ensures Skips(c, p, e, i) == Skips(c, p, e, 0)
    decreases e - p
  {
    if p < e {
      SkipsAll(c, p + 1, e, i);
      SkipsAll(c, p + 2, e, i);
    }
  }

  /** Moving on by one byte loses at most one escape, and none at a byte that is no backslash. */
  lemma {:induction false} SkipsStep(c: seq<Byte>, p: nat, e: nat, i: nat)
    requires e <= |c|
    ensures Skips(c, p, e, i) <= Skips(c, p, e, i + 1) + 1
    ensures i < |c| && c[i] != '\\' ==> Skips(c, p, e, i) == Skips(c, p, e, i + 1)
    ensures Skips(c, p, e, i) <= Skips(c, p, e, i + 2) + 1
    decreases e - p
  {
    if p < e {
      if c[p] == '\\' {
        SkipsStep(c, p + 2, e, i);
        if p >= i {
          SkipsAll(c, p + 2, e, i);
          SkipsAll(c, p + 2, e, i + 1);
          SkipsAll(c, p + 2, e, i + 2);
        }
      } else {
        SkipsStep(c, p + 1, e, i);
      }
    }
  }

  /** Six bytes hold at most three escapes. */
  lemma SkipsSix(c: seq<Byte>, p: nat, e: nat, i: nat)
    requires e <= |c|
    ensures Skips(c, p, e, i) <= Skips(c, p, e, i + 6) + 3
  {
    SkipsStep(c, p, e, i);
    SkipsStep(c, p, e, i + 2);
    SkipsStep(c, p, e, i + 4);
  }

  /** A literal yields fewer bytes than the scan for the closing quotation mark counted for it. */
  lemma LiteralFits(c: seq<Byte>, p: nat, e: nat, i: nat)
    requires i < e < |c| && Utf16(c, i, e).Some?
    ensures var l := Utf16(c, i, e).value;
      |Utf8(l.codepoint)| + Skips(c, p, e, i) <= l.length + Skips(c, p, e, i + l.length)
  {
    hide Skips, Utf16;
    SkipsSix(c, p, e, i);
    SkipsSix(c, p, e, i + 6);
  }

  // --- Decoding, piece by piece -------------------------------------------------------

  lemma ThenAssociates(x: seq<Byte>, y: seq<Byte>, r: Option<seq<Byte>>)
    ensures Then(x, Then(y, r)) == Then(x + y, r)
    ensures Then([], r) == r
  {
    if r.Some? {
      assert x + (y + r.value) == (x + y) + r.value;
      assert [] + r.value == r.value;
    }
  }

  lemma DecodeAt(c: seq<Byte>, i: nat, e: nat)
    requires i < e < |c|
    ensures c[i] != '\\' ==> DecodeString(c, i, e) == Then([c[i]], DecodeString(c, i + 1, e))
    ensures c[i] == '\\' && c[i + 1] == 'u' ==>
      DecodeString(c, i, e) == match Utf16(c, i, e) case None => None
                               case Some(l) => Then(Utf8(l.codepoint), DecodeString(c, i + l.length, e))
    ensures c[i] == '\\' && c[i + 1] != 'u' ==>
      DecodeString(c, i, e) == match SimpleEscape(c[i + 1]) case None => None
                               case Some(b) => Then([b], DecodeString(c, i + 2, e))
  {
    hide Utf16, Utf8, Then, SimpleEscape;
  }

  lemma AtEnd(c: seq<Byte>, i: nat, e: nat, bytes: seq<Byte>)
    requires e < |c| && i >= e
    ensures Then(bytes, DecodeString(c, i, e)) == Some(bytes)
  {
    assert bytes + [] == bytes;
  }

  lemma ThenNothing()
    ensures forall bytes :: Then(bytes, None) == None
  {
  }

  /** `parse_hex4`. */
  method ParseHex4(c: seq<Byte>, at: nat) returns (h: nat)
    requires at + 4 <= |c|
    ensures h == Hex4(c, at)
  {
    hide HexValue;
    h := 0;
    var i := 0;
    while i < 4
      invariant 0 <= i <= 4
      invariant i > 0 ==> HexValue(c[at]).Some?
      invariant i > 1 ==> HexValue(c[at + 1]).Some?
      invariant i > 2 ==> HexValue(c[at + 2]).Some?
      invariant i > 3 ==> HexValue(c[at + 3]).Some?
      invariant i == 0 ==> h == 0
      invariant i == 1 ==> h == 0x10 * HexValue(c[at]).value
      invariant i == 2 ==> h == 0x100 * HexValue(c[at]).value + 0x10 * HexValue(c[at + 1]).value
      invariant i == 3 ==> h == 0x1000 * HexValue(c[at]).value + 0x100 * HexValue(c[at + 1]).value
                               + 0x10 * HexValue(c[at + 2]).value
      invariant i == 4 ==> h == 0x1000 * HexValue(c[at]).value + 0x100 * HexValue(c[at + 1]).value
                               + 0x10 * HexValue(c[at + 2]).value + HexValue(c[at + 3]).value
    {
      var digit := HexValue(c[at + i]);
      if digit.None? {
        return 0;
      }
      h := h + digit.value;
      if i < 3 {
        h := h * 0x10;
      }
      i := i + 1;
    }
  }

  /** What is left of a code point when `k` groups of six bits have been taken from it. */
  function Shifted(n: nat, k: nat): nat
  {
    if k == 0 then n else if k == 1 then n / 0x40 else if k == 2 then n / 0x1000 else n / 0x40000
  }

  /** How many bytes a code point takes, and the bits that mark the first of them. */
  function Utf8Length(codepoint: nat): nat
  {
    if codepoint < 0x80 then 1 else if codepoint < 0x800 then 2 else if codepoint < 0x10000 then 3 else 4
  }

  function FirstByteMark(length: nat): nat
  {
    if length == 1 then 0 else if length == 2 then 0xC0 else if length == 3 then 0xE0 else 0xF0
  }

  /** The encoding part of `utf16_literal_to_utf8`: continuation bytes from the last to the second, then the first. */
  method WriteUtf8(codepoint: nat, output: array<Byte>, at: nat)
    requires codepoint <= 0x10FFFF && at + |Utf8(codepoint)| <= output.Length
    modifies output
    ensures output[..at + |Utf8(codepoint)|] == old(output[..at]) + Utf8(codepoint)
  {
    var length := Utf8Length(codepoint);
    var mark := FirstByteMark(length);
    var rest := codepoint;
    ghost var bytes := Utf8(codepoint);
    assert 1 <= length <= 4;
    hide Utf8, Shifted, Utf8Length, FirstByteMark, ByteOf;
    var position := length - 1;
    while position > 0
      invariant 0 <= position < length
      invariant output[..at] == old(output[..at])
      invariant forall k :: position < k < length ==> output[at + k] == bytes[k]
      invariant rest == Shifted(codepoint, length - 1 - position)
    {
      output[at + position] := ByteOf(0x80 + rest % 0x40);
      rest := rest / 0x40;
      position := position - 1;
    }
    output[at] := ByteOf(mark + rest);
  }

  /** The code point of `utf16_literal_to_utf8`. */
  method Utf16Literal(c: seq<Byte>, i: nat, e: nat) returns (l: Option<Literal>)
    requires i < e <= |c|
    ensures l == Utf16(c, i, e)
  {
    if e - i < 6 {
      return None;
    }
    var first := ParseHex4(c, i + 2);
    if 0xDC00 <= first <= 0xDFFF {
      return None;
    }
    if 0xD800 <= first <= 0xDBFF {
      if e - (i + 6) < 6 {
        return None;
      }
      if c[i + 6] != '\\' || c[i + 7] != 'u' {
        return None;
      }
      var second := ParseHex4(c, i + 8);
      if second < 0xDC00 || second > 0xDFFF {
        return None;
      }
      return Some(Literal(0x10000 + first % 0x400 * 0x400 + second % 0x400, 12));
    }
    return Some(Literal(first, 6));
  }

  // --- The parse buffer -----------------------------------------------------------------

  /** Items read so far, and what comes of the rest. */
  function Prepend<T>(items: seq<T>, r: Result<seq<T>>): Result<seq<T>>
  {
    match r
    case Parsed(rest, end) => Parsed(items + rest, end)
    case Failed => Failed
    case Unmodelled => Unmodelled
  }

  class ParseBuffer {
    const content: seq<Byte>
    var offset: nat
    var depth: nat

    constructor (content: seq<Byte>)
      ensures this.content == content && offset == 0 && depth == 0
    {
      this.content, offset, depth := content, 0, 0;
    }

    /** `can_access_at_index` for the byte at the offset, and what it is. */
    predicate Next(b: char)
      reads `offset
    {
      Sees(content, offset, b)
    }

    /** `buffer_skip_whitespace`. */
    method BufferSkipWhitespace()
      requires offset <= |content|
      modifies `offset
      ensures offset == SkipWhitespace(content, old(offset))
    {
      if offset >= |content| {
        return;
      }
      while offset < |content| && content[offset] <= ' '
        invariant old(offset) <= offset <= |content|
        invariant SkipSpace(content, old(offset)) == SkipSpace(content, offset)
      {
        offset := offset + 1;
      }
      if offset == |content| {
        offset := offset - 1;
      }
    }

    /** The first loop of `parse_string`: the closing quotation mark, and how many bytes only begin escapes. */
    method FindClosingQuote() returns (inputEnd: Option<nat>, skipped: nat)
      requires offset < |content|
      ensures inputEnd == ClosingQuote(content, offset + 1)
      ensures inputEnd.Some? ==> skipped == Skips(content, offset + 1, inputEnd.value, 0)
    {
      var i := offset + 1;
      skipped := 0;
      ghost var quote := ClosingQuote(content, offset + 1);
      while i < |content| && content[i] != '\"'
        invariant offset + 1 <= i <= |content| && quote == ClosingQuote(content, i)
        invariant quote.Some? ==>
          skipped + Skips(content, i, quote.value, 0) == Skips(content, offset + 1, quote.value, 0)
      {
        if content[i] == '\\' {
          if i + 1 >= |content| {
            return None, 0;
          }
          skipped := skipped + 1;
          i := i + 1;
        }
        i := i + 1;
      }
      if i >= |content| {
        return None, 0;
      }
      return Some(i), skipped;
    }

    /** One round of the second loop of `parse_string`. */
    method DecodeOne(output: array<Byte>, k: nat, ghost start: nat, ghost skipped: nat, i: nat, e: nat)
      returns (ok: bool, i': nat, k': nat)
      requires start <= i < e < |content| && skipped <= e - start
      requires output.Length == e - start - skipped + 2 && k <= output.Length
      requires k + skipped + start <= i + Skips(content, start, e, i)
      modifies output
      ensures !ok ==> DecodeString(content, i, e) == None
      ensures ok ==> i < i' <= e + 1 && k' < output.Length
                     && k' + skipped + start <= i' + Skips(content, start, e, i')
                     && Then(output[..k'], DecodeString(content, i', e)) == Then(old(output[..k]), DecodeString(content, i, e))
    {
      hide Skips, DecodeString, Then, Utf16, Utf8, SimpleEscape;
      i', k' := i, k;
      ghost var before, bytes: seq<Byte> := output[..], [];
      DecodeAt(content, i, e);
      SkipsStep(content, start, e, i);
      SkipsBehind(content, start, e, i + 1);
      SkipsBehind(content, start, e, i + 2);
      if content[i] != '\\' {
        bytes := [content[i]];
        output[k] := content[i];
        i', k' := i + 1, k + 1;
      } else if content[i + 1] == 'u' {
        var l := Utf16Literal(content, i, e);
        if l.None? {
          return false, i, k;
        }
        LiteralFits(content, start, e, i);
        SkipsBehind(content, start, e, i + l.value.length);
        bytes := Utf8(l.value.codepoint);
        WriteUtf8(l.value.codepoint, output, k);
        i', k' := i + l.value.length, k + |Utf8(l.value.codepoint)|;
      } else {
        var b := SimpleEscape(content[i + 1]);
        if b.None? {
          return false, i, k;
        }
        bytes := [b.value];
        output[k] := b.value;
        i', k' := i + 2, k + 1;
      }
      assert output[..k'] == before[..k] + bytes;
      ThenAssociates(before[..k], bytes, DecodeString(content, i', e));
      return true, i', k';
    }

    /**
     `parse_string`. The output gets as many bytes as the literal has, less those
     that only begin escapes, plus two; no input makes the loop write more.
     */
    method ParseString() returns (r: Result<CString>)
      requires offset < |content|
      modifies `offset
      ensures r == ParseText.ParseString(content, old(offset))
      ensures r.Parsed? ==> offset == r.end
    {
      hide Skips, DecodeString, Then, ClosingQuote;
      if content[offset] != '\"' {
        return Failed;
      }
      var inputEnd, skipped := FindClosingQuote();
      if inputEnd.None? {
        return Failed;
      }
      var e, start := inputEnd.value, offset + 1;
      SkipsBehind(content, start, e, 0);
      var allocationLength := e - offset - skipped;
      var output := new Byte[allocationLength + 1];
      var i: nat, k: nat := start, 0;
      ghost var goal := DecodeString(content, start, e);
      ThenAssociates([], [], goal);
      SkipsAll(content, start, e, start);
      assert output[..k] == [];
      while i < e
        invariant start <= i <= e + 1 && k < output.Length
        invariant k + skipped + start <= i + Skips(content, start, e, i)
        invariant goal == Then(output[..k], DecodeString(content, i, e))
        decreases e - i
      {
        var ok: bool;
        ok, i, k := DecodeOne(output, k, start, skipped, i, e);
        if !ok {
          ThenNothing();
          return Failed;
        }
      }
      output[k] := '\0';
      AtEnd(content, i, e, output[..k]);
      assert StringIn(output[..]) == StringIn(output[..k]);
      offset := e + 1;
      return Parsed(StringIn(output[..]), offset);
    }

    // --- Numbers ------------------------------------------------------------------

    /** The loop of `parse_number` over the bytes that numbers are made of. */
    method NumberLength() returns (length: nat)
      requires offset <= |content|
      ensures offset + length == NumberEnd(content, offset)
    {
      length := 0;
      while offset + length < |content| && IsNumberChar(content[offset + length])
        invariant offset + length <= |content|
        invariant NumberEnd(content, offset) == NumberEnd(content, offset + length)
      {
        length := length + 1;
      }
    }

    /** The digits that `strtod` reads in the copy of the bytes before `end`. */
    method ReadDigits(start: nat, end: nat) returns (i: nat, magnitude: nat)
      requires start <= end <= |content| && (end < |content| ==> !IsNumberChar(content[end]))
      ensures i == DigitsEnd(content, start) <= end
      ensures magnitude == DigitsValue(0, content[start..i])
    {
      i, magnitude := start, 0;
      assert content[start..i] == [];
      while i < end && IsDigit(content[i])
        invariant start <= i <= end
        invariant DigitsEnd(content, start) == DigitsEnd(content, i)
        invariant forall k :: start <= k < i ==> IsDigit(content[k])
        invariant magnitude == DigitsValue(0, content[start..i])
      {
        DigitsValueAppend(0, content[start..i], content[i]);
        assert content[start..i + 1] == content[start..i] + [content[i]];
        magnitude := 10 * magnitude + (content[i] as int - 48);
        i := i + 1;
      }
    }

    /** `parse_number`, with `strtod` on integers written out. */
    method ParseNumber() returns (r: Result<Json>)
      requires offset < |content|
      modifies `offset
      ensures r == ParseText.ParseNumber(content, old(offset))
      ensures r.Parsed? ==> offset == r.end
    {
      var length := NumberLength();
      var negative := content[offset] == '-';
      var start: nat := if negative then offset + 1 else offset;
      assert start <= offset + length;
      hide NumberEnd, DigitsEnd, DigitsValue;
      var i, magnitude := ReadDigits(start, offset + length);
      if i == start {
        return if i < |content| && content[i] == '.' then Unmodelled else Failed;
      }
      if i < |content| && (content[i] == '.' || content[i] == 'e' || content[i] == 'E') {
        return Unmodelled;
      }
      var n := SignedValue(negative, magnitude);
      if n < INT_MIN || n > INT_MAX {
        return Unmodelled;
      }
      offset := i;
      return Parsed(Number(n), i);
    }

    // --- Values -------------------------------------------------------------------

    /** `strncmp` with the bytes at the offset. */
    method Reads(word: CString) returns (same: bool)
      requires offset <= |content|
      ensures same == At(content, offset, word)
    {
      return offset + |word| <= |content| && content[offset..offset + |word|] == word;
    }

    /** `parse_value`. */
    method ParseValue() returns (r: Result<Json>)
      requires offset <= |content|
      modifies this
      ensures r == ParseText.ParseValue(content, old(offset), old(depth))
      ensures r.Parsed? ==> offset == r.end && depth == old(depth)
      decreases |content| - offset, 3
    {
      hide At, ParseText.ParseString, ParseText.ParseNumber;
      var word := Reads("null");
      if word {
        offset := offset + 4;
        return Parsed(Null, offset);
      }
      word := Reads("false");
      if word {
        offset := offset + 5;
        return Parsed(False, offset);
      }
      word := Reads("true");
      if word {
        offset := offset + 4;
        return Parsed(True, offset);
      }
      if Next('\"') {
        var s := ParseString();
        match s {
          case Parsed(text, end) => return Parsed(String(text), end);
          case Failed => return Failed;
          case Unmodelled => return Unmodelled;
        }
      }
      if offset < |content| && (content[offset] == '-' || IsDigit(content[offset])) {
        r := ParseNumber();
        return;
      }
      if Next('[') {
        r := ParseArray();
        return;
      }
      if Next('{') {
        r := ParseObject();
        return;
      }
      return Failed;
    }

    /** `parse_array`. */
    method ParseArray() returns (r: Result<Json>)
      requires Next('[')
      modifies this
      ensures r == ParseText.ParseArray(content, old(offset), old(depth))
      ensures r.Parsed? ==> offset == r.end && depth == old(depth)
      decreases |content| - offset, 2
    {
      if depth >= JsonText.NESTING_LIMIT {
        return Failed;
      }
      depth := depth + 1;
      offset := offset + 1;
      BufferSkipWhitespace();
      if Next(']') {
        depth, offset := depth - 1, offset + 1;
        return Parsed(Array([]), offset);
      }
      if offset >= |content| {
        offset := offset - 1;
        return Failed;
      }
      offset := offset - 1;
      hide SkipWhitespace;
      var elements := ParseElements();
      match elements {
        case Parsed(items, end) =>
          depth := depth - 1;
          return Parsed(Array(items), end);
        case Failed => return Failed;
        case Unmodelled => return Unmodelled;
      }
    }

    /** The value behind the bracket or comma at the offset. */
    method ParseElement() returns (r: Result<Json>)
      requires offset < |content|
      modifies this
      ensures r == ElementAt(content, old(offset), old(depth))
      ensures r.Parsed? ==> offset == r.end && depth == old(depth)
      decreases |content| - offset, 0
    {
      hide ParseText.ParseValue;
      offset := offset + 1;
      BufferSkipWhitespace();
      hide SkipWhitespace;
      r := ParseValue();
    }

    /** The loop of `parse_array`. */
    method ParseElements() returns (r: Result<seq<Json>>)
      requires offset < |content|
      modifies this
      ensures r == ParseText.ParseElements(content, old(offset), old(depth))
      ensures r.Parsed? ==> offset == r.end && depth == old(depth)
      decreases |content| - offset, 1
    {
      var items := [];
      var more := true;
      ghost var goal, d := ParseText.ParseElements(content, offset, depth), depth;
      PrependNothing(goal);
      hide SkipWhitespace, ElementAt, ParseText.ParseElements;
      while more
        invariant old(offset) <= offset < |content| && depth == d
        invariant more ==> goal == Prepend(items, ParseText.ParseElements(content, offset, d))
        invariant !more ==> Next(']') && goal == Parsed(items, offset + 1)
        decreases if more then |content| - offset + 1 else 0
      {
        ghost var before := items;
        PrependMore(before, content, offset, d);
        var element := ParseElement();
        match element {
          case Parsed(j, end) =>
            items := items + [j];
            BufferSkipWhitespace();
            more := Next(',');
            if !more && !Next(']') {
              return Failed;
            }
          case Failed => return Failed;
          case Unmodelled => return Unmodelled;
        }
      }
      offset := offset + 1;
      return Parsed(items, offset);
    }

    /** `parse_object`. */
    method ParseObject() returns (r: Result<Json>)
      requires Next('{')
      modifies this
      ensures r == ParseText.ParseObject(content, old(offset), old(depth))
      ensures r.Parsed? ==> offset == r.end && depth == old(depth)
      decreases |content| - offset, 2
    {
      if depth >= JsonText.NESTING_LIMIT {
        return Failed;
      }
      depth := depth + 1;
      offset := offset + 1;
      BufferSkipWhitespace();
      if Next('}') {
        depth, offset := depth - 1, offset + 1;
        return Parsed(Object([]), offset);
      }
      if offset >= |content| {
        offset := offset - 1;
        return Failed;
      }
      offset := offset - 1;
      hide SkipWhitespace;
      var members := ParseMembers();
      match members {
        case Parsed(ms, end) =>
          depth := depth - 1;
          return Parsed(Object(ms), end);
        case Failed => return Failed;
        case Unmodelled => return Unmodelled;
      }
    }

    /** The name of a member, up to its colon. */
    method ParseKey() returns (r: Result<CString>)
      requires offset < |content|
      modifies this
      ensures r == ParseText.ParseKey(content, old(offset)) && depth == old(depth)
      ensures r.Parsed? ==> offset == r.end
    {
      hide ParseText.ParseString;
      if offset + 1 >= |content| {
        return Failed;
      }
      offset := offset + 1;
      BufferSkipWhitespace();
      hide SkipWhitespace;
      var key := ParseString();
      match key {
        case Parsed(name, end) =>
          BufferSkipWhitespace();
          if !Next(':') {
            return Failed;
          }
          return Parsed(name, offset);
        case Failed => return Failed;
        case Unmodelled => return Unmodelled;
      }
    }

    /** A name and its value: one round of the loop of `parse_object`. */
    method ParseMember() returns (r: Result<Entry<Json>>)
      requires offset < |content|
      modifies this
      ensures r == ParseText.ParseMember(content, old(offset), old(depth))
      ensures r.Parsed? ==> offset == r.end && depth == old(depth)
      decreases |content| - offset, 0
    {
      hide ParseText.ParseValue, ParseText.ParseKey;
      var key := ParseKey();
      if key.Failed? {
        return Failed;
      } else if key.Unmodelled? {
        return Unmodelled;
      }
      offset := offset + 1;
      BufferSkipWhitespace();
      hide SkipWhitespace;
      var value := ParseValue();
      match value {
        case Parsed(j, end) => return Parsed(Entry(key.value, j), end);
        case Failed => return Failed;
        case Unmodelled => return Unmodelled;
      }
    }

    /** The loop of `parse_object`. */
    method ParseMembers() returns (r: Result<seq<Entry<Json>>>)
      requires offset < |content|
      modifies this
      ensures r == ParseText.ParseMembers(content, old(offset), old(depth))
      ensures r.Parsed? ==> offset == r.end && depth == old(depth)
      decreases |content| - offset, 1
    {
      var ms := [];
      var more := true;
      ghost var goal, d := ParseText.ParseMembers(content, offset, depth), depth;
      PrependNothing(goal);
      hide SkipWhitespace, ParseText.ParseMember, ParseText.ParseMembers;
      while more
        invariant old(offset) <= offset < |content| && depth == d
        invariant more ==> goal == Prepend(ms, ParseText.ParseMembers(content, offset, d))
        invariant !more ==> Next('}') && goal == Parsed(ms, offset + 1)
        decreases if more then |content| - offset + 1 else 0
      {
        ghost var before := ms;
        PrependMoreMembers(before, content, offset, d);
        var member := ParseMember();
        match member {
          case Parsed(e, end) =>
            ms := ms + [e];
            BufferSkipWhitespace();
            more := Next(',');
            if !more && !Next('}') {
              return Failed;
            }
          case Failed => return Failed;
          case Unmodelled => return Unmodelled;
        }
      }
      offset := offset + 1;
      return Parsed(ms, offset);
    }
  }

  lemma PrependNothing<T>(r: Result<seq<T>>)
    ensures Prepend([], r) == r
  {
    if r.Parsed? {
      assert [] + r.value == r.value;
    }
  }

  /** The value behind a bracket or comma. */
  function ElementAt(c: seq<Byte>, o: nat, depth: nat): (r: Result<Json>)
    requires o < |c|
    ensures r.Parsed? ==> o < r.end <= |c|
  {
    ParseText.ParseValue(c, SkipWhitespace(c, o + 1), depth)
  }

  /** What the loop over elements goes on to find once it has read `items` up to `e`. */
  function AfterItems(items: seq<Json>, c: seq<Byte>, e: nat, depth: nat): Result<seq<Json>>
    requires e <= |c|
  {
    var t := SkipWhitespace(c, e);
    if Sees(c, t, ',') then Prepend(items, ParseText.ParseElements(c, t, depth))
    else if Sees(c, t, ']') then Parsed(items, t + 1)
    else Failed
  }

  /** One round of the loop over elements. */
  lemma PrependMore(items: seq<Json>, c: seq<Byte>, o: nat, depth: nat)
    requires o < |c|
    ensures Prepend(items, ParseText.ParseElements(c, o, depth))
         == match ElementAt(c, o, depth)
            case Failed => Failed
            case Unmodelled => Unmodelled
            case Parsed(j, e) => AfterItems(items + [j], c, e, depth)
  {
    hide SkipWhitespace, ParseText.ParseValue;
    match ParseText.ParseValue(c, SkipWhitespace(c, o + 1), depth)
    case Parsed(j, e) =>
      var t := SkipWhitespace(c, e);
      if Sees(c, t, ',') {
        var rest := ParseText.ParseElements(c, t, depth);
        if rest.Parsed? {
          assert items + ([j] + rest.value) == (items + [j]) + rest.value;
        }
      }
    case _ =>
  }

  /** The same for the loop over members. */
  function AfterMembers(ms: seq<Entry<Json>>, c: seq<Byte>, e: nat, depth: nat): Result<seq<Entry<Json>>>
    requires e <= |c|
  {
    var t := SkipWhitespace(c, e);
    if Sees(c, t, ',') then Prepend(ms, ParseText.ParseMembers(c, t, depth))
    else if Sees(c, t, '}') then Parsed(ms, t + 1)
    else Failed
  }

  /** One round of the loop over members. */
  lemma PrependMoreMembers(ms: seq<Entry<Json>>, c: seq<Byte>, o: nat, depth: nat)
    requires o < |c|
    ensures Prepend(ms, ParseText.ParseMembers(c, o, depth))
         == match ParseText.ParseMember(c, o, depth)
            case Failed => Failed
            case Unmodelled => Unmodelled
            case Parsed(member, e) => AfterMembers(ms + [member], c, e, depth)
  {
    hide SkipWhitespace, ParseText.ParseMember;
    match ParseText.ParseMember(c, o, depth)
    case Parsed(member, e) =>
      var t := SkipWhitespace(c, e);
      if Sees(c, t, ',') {
        var rest := ParseText.ParseMembers(c, t, depth);
        if rest.Parsed? {
          assert ms + ([member] + rest.value) == (ms + [member]) + rest.value;
        }
      }
    case _ =>
  }

  /** `cJSON_ParseWithLengthOpts`. */
  method ParseWithLengthOpts(content: seq<Byte>, requireNullTerminated: bool) returns (r: Result<Json>)
    ensures r == ParseDocument(content, requireNullTerminated)
  {
    if content == [] {
      return Failed;
    }
    var buffer := new ParseBuffer(content);
    if 4 < |content| && content[0] == '\U{00EF}' && content[1] == '\U{00BB}' && content[2] == '\U{00BF}' {
      buffer.offset := 3;
    }
    buffer.BufferSkipWhitespace();
    hide SkipWhitespace;
    r := buffer.ParseValue();
    if r.Parsed? && requireNullTerminated {
      buffer.BufferSkipWhitespace();
      if buffer.offset >= |content| || content[buffer.offset] != '\0' {
        return Failed;
      }
      r := Parsed(r.value, buffer.offset);
    }
  }
}
