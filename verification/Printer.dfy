/**
 The printer: a buffer that grows or is fixed, `ensure` and `update_offset`, and
 the mutually recursive print functions. Every function of the printer either
 appends the text of its argument, or fails exactly when the tree cannot be
 printed or the text, its NUL and one more byte do not fit.
 */
module Printer {
  import opened Bytes
  import opened Sequences
  import opened Json
  import opened JsonText

  class PrintBuffer {
    var buffer: array<Byte>
    var length: nat
    var offset: nat
    var depth: nat
    const noalloc: bool
    const format: bool

    constructor (buffer: array<Byte>, length: nat, noalloc: bool, format: bool)
      requires length <= buffer.Length && length <= INT_MAX
      ensures Valid() && this.buffer == buffer && this.length == length && offset == 0 && depth == 0
      ensures this.noalloc == noalloc && this.format == format
    {
      this.buffer, this.length, this.offset, this.depth := buffer, length, 0, 0;
      this.noalloc, this.format := noalloc, format;
    }

    ghost predicate Valid()
      reads `buffer, `length, `offset
    {
      length <= buffer.Length && length <= INT_MAX && (offset < length || (offset == 0 && length == 0))
    }

    /** What has been printed. */
    ghost function Written(): seq<Byte>
      reads `buffer, `length, `offset, buffer
      requires Valid()
    {
      buffer[..offset]
    }

    /** How long the buffer can get. */
    ghost function Limit(): int
      reads `length
    {
      if noalloc then length else INT_MAX
    }

    /** The memory behind a fixed buffer. */
    ghost function Outside(): seq<Byte>
      reads `buffer, `length, `offset, buffer
      requires Valid()
    {
      if noalloc then buffer[length..] else []
    }

    /** After `w` the buffer holds the text `t` and a NUL; the offset is somewhere in `t`. */
    ghost predicate Holds(w: seq<Byte>, t: CString)
      reads `buffer, `length, `offset, buffer
    {
      && |w| <= offset <= |w| + |t| < length <= buffer.Length
      && buffer[..|w| + |t|] == w + t && buffer[|w| + |t|] == '\0'
    }

    /** `ensure`: room for `needed` bytes and one more. */
    method Ensure(needed: nat) returns (ok: bool)
      requires Valid()
      modifies this`buffer, this`length
      ensures Valid() && (buffer == old(buffer) || (!noalloc && fresh(buffer)))
      ensures Limit() == old(Limit()) && Outside() == old(Outside()) && Written() == old(Written())
      ensures ok <==> offset + needed + 1 <= Limit()
      ensures ok ==> offset + needed < length
      ensures ok ==> length == if offset + needed + 1 <= old(length) then old(length)
                               else if offset + needed + 1 > 0x3FFF_FFFF then 0x7FFF_FFFF else 2 * (offset + needed + 1)
    {
      if length > 0 && offset >= length {
        return false;
      }
      if needed > INT_MAX {
        return false;
      }
      var total := needed + offset + 1;
      if total <= length {
        return true;
      }
      if noalloc {
        return false;
      }
      var newsize := 0;
      if total > INT_MAX / 2 {
        if total <= INT_MAX {
          newsize := INT_MAX;
        } else {
          return false;
        }
      } else {
        newsize := total * 2;
      }
      var newbuffer := new Byte[newsize];
      var i := 0;
      while i < length
        invariant 0 <= i <= length && length <= newbuffer.Length
        invariant newbuffer[..i] == buffer[..i]
        modifies newbuffer
      {
        newbuffer[i] := buffer[i];
        i := i + 1;
      }
      assert newbuffer[..offset] == newbuffer[..length][..offset];
      assert buffer[..offset] == buffer[..length][..offset];
      length, buffer := newsize, newbuffer;
      return true;
    }

    /** `update_offset`: moves the offset to the NUL. */
    method UpdateOffset(ghost w: seq<Byte>, ghost t: CString)
      requires Valid() && Holds(w, t)
      modifies this`offset
      ensures Valid() && Written() == w + t && offset == |w| + |t| && Outside() == old(Outside())
    {
      var i := offset;
      assert forall k :: |w| <= k < |w| + |t| ==> buffer[k] == (w + t)[k] == t[k - |w|];
      while buffer[i] != '\0'
        invariant offset <= i <= |w| + |t|
        decreases |w| + |t| - i
      {
        i := i + 1;
      }
      offset := i;
    }

    /** Bytes written from position `at` on. */
    method Store(at: nat, s: seq<Byte>)
      requires Valid() && at + |s| <= length
      modifies buffer
      ensures buffer[..at + |s|] == old(buffer[..at]) + s
      ensures buffer[length..] == old(buffer[length..])
    {
      ghost var before := buffer[..];
      assert buffer[at..] == before[at..];
      var i := 0;
      while i < |s|
        invariant 0 <= i <= |s|
        invariant buffer[..at + i] == before[..at] + s[..i]
        invariant buffer[length..] == before[length..]
      {
        buffer[at + i] := s[i];
        assert buffer[..at + i + 1] == buffer[..at + i] + [s[i]];
        assert s[..i + 1] == s[..i] + [s[i]];
        i := i + 1;
      }
      assert s[..i] == s;
    }

    /** A run of bytes that ends where the offset goes; `slack` more bytes must fit. */
    method Append(s: CString, slack: nat) returns (ok: bool)
      requires Valid() && |s| + slack > 0
      modifies this`buffer, this`length, this`offset, buffer
      ensures Valid() && (buffer == old(buffer) || (!noalloc && fresh(buffer)))
      ensures Limit() == old(Limit()) && Outside() == old(Outside())
      ensures ok <==> old(offset) + |s| + slack + 1 <= Limit()
      ensures ok ==> Written() == old(Written()) + s && offset == old(offset) + |s|
    {
      ok := Ensure(|s| + slack);
      if ok {
        Store(offset, s);
        offset := offset + |s|;
      }
    }

    /** `strcpy` of a text that must fit with its NUL and one more byte. */
    method Copy(t: CString) returns (ok: bool)
      requires Valid()
      modifies this`buffer, this`length, buffer
      ensures Valid() && (buffer == old(buffer) || (!noalloc && fresh(buffer)))
      ensures Limit() == old(Limit()) && Outside() == old(Outside())
      ensures ok <==> offset + |t| + 2 <= Limit()
      ensures ok ==> Holds(old(Written()), t)
    {
      ok := Ensure(|t| + 1);
      if ok {
        ghost var w := Written();
        Store(offset, t);
        Finish(w, t);
      }
    }

    // --- Strings ----------------------------------------------------------------

    /** The escaped bytes of `s`, written from position `at` on. */
    method WriteEscaped(at: nat, s: CString)
      requires Valid() && at + |Escaped(s)| <= length
      modifies buffer
      ensures buffer[..at + |Escaped(s)|] == old(buffer[..at]) + Escaped(s)
      ensures buffer[length..] == old(buffer[length..])
    {
      hide EscapeByte, Escaped;
      ghost var before := buffer[..];
      assert buffer[length..] == before[length..];
      var i, k := 0, at;
      EscapedNil();
      assert s[..0] == [];
      while i < |s|
        invariant 0 <= i <= |s| && k == at + |Escaped(s[..i])| <= at + |Escaped(s)|
        invariant buffer[..k] == before[..at] + Escaped(s[..i])
        invariant buffer[length..] == before[length..]
      {
        EscapedStep(s, i);
        var e := EscapeByte(s[i]);
        Store(k, e);
        assert (before[..at] + Escaped(s[..i])) + e == before[..at] + (Escaped(s[..i]) + e);
        i, k := i + 1, k + |e|;
      }
      assert s[..i] == s;
    }

    /** What stands between the quotation marks; without escapes the bytes are copied. */
    method WriteInner(at: nat, s: CString, escapes: nat)
      requires Valid() && |Escaped(s)| == |s| + escapes && at + |s| + escapes <= length
      modifies buffer
      ensures buffer[..at + |s| + escapes] == old(buffer[..at]) + Escaped(s)
      ensures buffer[length..] == old(buffer[length..])
    {
      hide Escaped;
      if escapes == 0 {
        NoEscapes(s);
        Store(at, s);
      } else {
        WriteEscaped(at, s);
      }
    }

    method WriteQuoted(s: CString, escapes: nat)
      requires Valid() && |Escaped(s)| == |s| + escapes
      requires offset + |s| + escapes + 2 <= length
      modifies buffer
      ensures buffer[..offset + |s| + escapes + 2] == old(buffer[..offset]) + Quoted(s)
      ensures buffer[length..] == old(buffer[length..])
    {
      hide Escaped;
      ghost var w := buffer[..offset];
      Store(offset, ['\"']);
      WriteInner(offset + 1, s, escapes);
      Store(offset + 1 + |s| + escapes, ['\"']);
      assert ((w + ['\"']) + Escaped(s)) + ['\"'] == w + Quoted(s);
    }

    /** `print_string_ptr`. */
    method PrintStringPtr(s: CString) returns (ok: bool)
      requires Valid()
      modifies this`buffer, this`length, buffer
      ensures Valid() && (buffer == old(buffer) || (!noalloc && fresh(buffer)))
      ensures Limit() == old(Limit()) && Outside() == old(Outside())
      ensures ok <==> offset + |Quoted(s)| + 2 <= Limit()
      ensures ok ==> Holds(old(Written()), Quoted(s))
    {
      var escapes := EscapeCharacters(s);
      var outputLength := |s| + escapes;
      assert |Quoted(s)| == outputLength + 2;
      hide Escaped, Quoted;
      ok := Ensure(outputLength + 3);
      if ok {
        ghost var w := Written();
        WriteQuoted(s, escapes);
        Finish(w, Quoted(s));
      }
    }

    /** The NUL after a text of which the offset still stands at the beginning. */
    method Finish(ghost w: seq<Byte>, t: CString)
      requires Valid() && |w| == offset && offset + |t| < length && buffer[..offset + |t|] == w + t
      modifies buffer
      ensures Holds(w, t) && buffer[length..] == old(buffer[length..])
    {
      Store(offset + |t|, ['\0']);
      assert buffer[..offset + |t|] == buffer[..offset + |t| + 1][..offset + |t|];
    }

    // --- Values ---------------------------------------------------------------

    /** `print_number` for an integer in the range of `int`, which moves the offset itself. */
    method PrintNumber(n: Int) returns (ok: bool)
      requires Valid()
      modifies this`buffer, this`length, this`offset, buffer
      ensures Valid() && (buffer == old(buffer) || (!noalloc && fresh(buffer)))
      ensures Limit() == old(Limit()) && Outside() == old(Outside())
      ensures ok <==> old(offset) + |Signed(n)| + 2 <= Limit()
      ensures ok ==> Holds(old(Written()), Signed(n))
    {
      hide Signed;
      ok := Copy(Signed(n));
      if ok {
        offset := offset + |Signed(n)|;
      }
    }

    /** `print_value`. */
    method PrintValue(j: Json) returns (ok: bool)
      requires Valid()
      modifies this, buffer
      ensures Valid() && (buffer == old(buffer) || (!noalloc && fresh(buffer)))
      ensures Limit() == old(Limit()) && Outside() == old(Outside())
      ensures ok <==> CanPrint(j, old(depth)) && old(offset) + |Text(j, format, old(depth))| + 2 <= Limit()
      ensures ok ==> depth == old(depth) && Holds(old(Written()), Text(j, format, old(depth)))
      decreases j, 1
    {
      hide Signed, Quoted, ItemsText, MembersText, Holds, Written, Outside;
      match j {
        case Null => ok := Copy("null");
        case False => ok := Copy("false");
        case True => ok := Copy("true");
        case Number(n) => ok := PrintNumber(n);
        case String(s) => ok := PrintStringPtr(s);
        case Array(items) => ok := PrintArray(items);
        case Object(ms) => ok := PrintObject(ms);
        case Invalid => ok := false;
      }
    }

    /** A value, and the offset moved to its end. */
    method PrintInside(j: Json) returns (ok: bool)
      requires Valid()
      modifies this, buffer
      ensures Valid() && (buffer == old(buffer) || (!noalloc && fresh(buffer)))
      ensures Limit() == old(Limit()) && Outside() == old(Outside())
      ensures ok <==> CanPrint(j, old(depth)) && old(offset) + |Text(j, format, old(depth))| + 2 <= Limit()
      ensures ok ==> depth == old(depth) && Written() == old(Written()) + Text(j, format, depth)
                     && offset == old(offset) + |Text(j, format, depth)|
      decreases j, 2
    {
      hide Text, CanPrint;
      ghost var w, t := Written(), Text(j, format, depth);
      ok := PrintValue(j);
      if ok {
        UpdateOffset(w, t);
      }
    }

    /** An element of an array and what separates it from the next. */
    method PrintItem(j: Json, more: bool) returns (ok: bool)
      requires Valid()
      modifies this, buffer
      ensures Valid() && (buffer == old(buffer) || (!noalloc && fresh(buffer)))
      ensures Limit() == old(Limit()) && Outside() == old(Outside())
      ensures ok <==> CanPrint(j, old(depth)) && old(offset) + |ItemText(j, format, old(depth), more)| + 2 <= Limit()
      ensures ok ==> depth == old(depth) && Written() == old(Written()) + ItemText(j, format, depth, more)
                     && offset == old(offset) + |ItemText(j, format, depth, more)|
      decreases j, 3
    {
      hide Text, CanPrint, Written, Outside;
      ghost var w, t := Written(), Text(j, format, depth);
      ok := PrintInside(j);
      if ok && more {
        ok := Append(Separator(format, true), 1);
      }
    }

    /** An array up to its closing bracket. */
    method PrintOpenArray(items: seq<Json>) returns (ok: bool)
      requires Valid()
      modifies this, buffer
      ensures Valid() && (buffer == old(buffer) || (!noalloc && fresh(buffer)))
      ensures Limit() == old(Limit()) && Outside() == old(Outside())
      ensures ok ==> ItemsPrint(items, depth) && depth == old(depth) + 1
                     && Written() == old(Written()) + OPENING_BRACKET + ItemsText(items, format, depth)
                     && offset == old(offset) + 1 + |ItemsText(items, format, depth)|
      ensures !ok ==> !ItemsPrint(items, old(depth) + 1)
                      || old(offset) + 1 + |ItemsText(items, format, old(depth) + 1)| + 2 > Limit()
      decreases items, 1
    {
      hide Written, Outside, ItemsText, ItemsPrint;
      ok := Append(OPENING_BRACKET, 0);
      if ok {
        depth := depth + 1;
        ok := PrintItems(items);
      }
    }

    /** `print_array`. */
    method PrintArray(items: seq<Json>) returns (ok: bool)
      requires Valid()
      modifies this, buffer
      ensures Valid() && (buffer == old(buffer) || (!noalloc && fresh(buffer)))
      ensures Limit() == old(Limit()) && Outside() == old(Outside())
      ensures ok <==> CanPrint(Array(items), old(depth))
                      && old(offset) + |Text(Array(items), format, old(depth))| + 2 <= Limit()
      ensures ok ==> depth == old(depth) && Holds(old(Written()), Text(Array(items), format, old(depth)))
      decreases items, 2
    {
      ArrayText(items, format, depth);
      hide Outside, Holds, ItemsText, Text, CanPrint, ItemsPrint;
      ok := false;
      if depth < NESTING_LIMIT {
        ghost var w := Written();
        ok := PrintOpenArray(items);
        if ok {
          ok := PrintClosing(CLOSING_BRACKET, w, OPENING_BRACKET, ItemsText(items, format, depth));
        }
      }
    }

    /** What closes an array or object of which `opening` and `inside` have been printed after `w`. */
    method PrintClosing(closing: CString, ghost w: seq<Byte>, ghost opening: CString, ghost inside: CString)
      returns (ok: bool)
      requires Valid() && depth > 0 && Written() == w + opening + inside
      modifies this, buffer
      ensures Valid() && (buffer == old(buffer) || (!noalloc && fresh(buffer)))
      ensures Limit() == old(Limit()) && Outside() == old(Outside())
      ensures ok <==> old(offset) + |closing| + 2 <= Limit()
      ensures ok ==> depth == old(depth) - 1 && Holds(w, opening + inside + closing)
    {
      hide Outside;
      ok := Copy(closing);
      if ok {
        ThreeParts(w, opening, inside, closing);
        depth := depth - 1;
      }
    }

    /** The loop over the elements of an array. */
    method PrintItems(items: seq<Json>) returns (ok: bool)
      requires Valid()
      modifies this, buffer
      ensures Valid() && (buffer == old(buffer) || (!noalloc && fresh(buffer)))
      ensures Limit() == old(Limit()) && Outside() == old(Outside())
      ensures ok ==> ItemsPrint(items, depth) && depth == old(depth) && Written() == old(Written()) + ItemsText(items, format, depth)
                     && offset == old(offset) + |ItemsText(items, format, depth)|
      ensures !ok ==> !ItemsPrint(items, old(depth)) || old(offset) + |ItemsText(items, format, old(depth))| + 2 > Limit()
      decreases items, 0
    {
      hide Text, CanPrint, Written, Outside, ItemsText, ItemText;
      ghost var w, d := Written(), depth;
      ghost var goal := w + ItemsText(items, format, d);
      assert items[0..] == items;
      var i := 0;
      while i < |items|
        invariant 0 <= i <= |items|
        invariant Valid() && (buffer == old(buffer) || (!noalloc && fresh(buffer)))
        invariant Limit() == old(Limit()) && Outside() == old(Outside())
        invariant depth == d && goal == Written() + ItemsText(items[i..], format, d)
        invariant offset + |ItemsText(items[i..], format, d)| == old(offset) + |ItemsText(items, format, d)|
        invariant forall k :: 0 <= k < i ==> CanPrint(items[k], d)
      {
        ghost var before := Written();
        ItemsStep(items, i, format, d);
        assert items[i] in items;
        ok := PrintItem(items[i], i + 1 < |items|);
        if !ok {
          return false;
        }
        AppendAssociates(before, ItemText(items[i], format, d, i + 1 < |items|), ItemsText(items[i + 1..], format, d));
        i := i + 1;
      }
      ItemsEnd(items, i, format, d);
      assert Written() + [] == Written();
      return true;
    }

    /** An object up to what closes it. */
    method PrintOpenObject(ms: seq<Entry<Json>>) returns (ok: bool)
      requires Valid()
      modifies this, buffer
      ensures Valid() && (buffer == old(buffer) || (!noalloc && fresh(buffer)))
      ensures Limit() == old(Limit()) && Outside() == old(Outside())
      ensures ok ==> MembersPrint(ms, depth) && depth == old(depth) + 1
                     && Written() == old(Written()) + Opening(format) + MembersText(ms, format, depth)
                     && offset == old(offset) + |Opening(format)| + |MembersText(ms, format, depth)|
      ensures !ok ==> !MembersPrint(ms, old(depth) + 1)
                      || old(offset) + |Opening(format)| + |MembersText(ms, format, old(depth) + 1)| + 2 > Limit()
      decreases ms, 1
    {
      hide Written, Outside, MembersText, MembersPrint;
      ok := Append(Opening(format), 1);
      if ok {
        depth := depth + 1;
        ok := PrintMembers(ms);
      }
    }

    /** `print_object`. */
    method PrintObject(ms: seq<Entry<Json>>) returns (ok: bool)
      requires Valid()
      modifies this, buffer
      ensures Valid() && (buffer == old(buffer) || (!noalloc && fresh(buffer)))
      ensures Limit() == old(Limit()) && Outside() == old(Outside())
      ensures ok <==> CanPrint(Object(ms), old(depth))
                      && old(offset) + |Text(Object(ms), format, old(depth))| + 2 <= Limit()
      ensures ok ==> depth == old(depth) && Holds(old(Written()), Text(Object(ms), format, old(depth)))
      decreases ms, 2
    {
      ObjectText(ms, format, depth);
      hide Outside, Holds, MembersText, Text, CanPrint, MembersPrint, Opening, Closing;
      ok := false;
      if depth < NESTING_LIMIT {
        ghost var w := Written();
        ok := PrintOpenObject(ms);
        if ok {
          ok := PrintClosing(Closing(format, depth - 1), w, Opening(format), MembersText(ms, format, depth));
        }
      }
    }

    /** The loop over the members of an object. */
    method PrintMembers(ms: seq<Entry<Json>>) returns (ok: bool)
      requires Valid() && depth > 0
      modifies this, buffer
      ensures Valid() && (buffer == old(buffer) || (!noalloc && fresh(buffer)))
      ensures Limit() == old(Limit()) && Outside() == old(Outside())
      ensures ok ==> MembersPrint(ms, depth) && depth == old(depth) && Written() == old(Written()) + MembersText(ms, format, depth)
                     && offset == old(offset) + |MembersText(ms, format, depth)|
      ensures !ok ==> !MembersPrint(ms, old(depth)) || old(offset) + |MembersText(ms, format, old(depth))| + 2 > Limit()
      decreases ms, 0
    {
      hide Text, CanPrint, Written, Outside, MembersText, MemberText;
      ghost var w, d := Written(), depth;
      ghost var goal := w + MembersText(ms, format, d);
      assert ms[0..] == ms;
      var i := 0;
      while i < |ms|
        invariant 0 <= i <= |ms|
        invariant Valid() && (buffer == old(buffer) || (!noalloc && fresh(buffer)))
        invariant Limit() == old(Limit()) && Outside() == old(Outside())
        invariant depth == d && goal == Written() + MembersText(ms[i..], format, d)
        invariant offset + |MembersText(ms[i..], format, d)| == old(offset) + |MembersText(ms, format, d)|
        invariant forall k :: 0 <= k < i ==> CanPrint(ms[k].item, d)
      {
        ghost var before := Written();
        MembersStep(ms, i, format, d);
        assert ms[i] in ms;
        ok := PrintMember(ms[i], i + 1 < |ms|);
        if !ok {
          return false;
        }
        AppendAssociates(before, MemberText(ms[i], format, d, i + 1 < |ms|), MembersText(ms[i + 1..], format, d));
        i := i + 1;
      }
      MembersEnd(ms, i, format, d);
      assert Written() + [] == Written();
      return true;
    }

    /** The indentation, the name and the colon of a member. */
    method PrintKey(key: CString) returns (ok: bool)
      requires Valid() && depth > 0
      modifies this, buffer
      ensures Valid() && (buffer == old(buffer) || (!noalloc && fresh(buffer)))
      ensures Limit() == old(Limit()) && Outside() == old(Outside())
      ensures ok <==> old(offset) + |KeyText(key, format, old(depth))| + 1 <= Limit()
      ensures ok ==> depth == old(depth) && Written() == old(Written()) + KeyText(key, format, depth)
                     && offset == old(offset) + |KeyText(key, format, depth)|
    {
      hide Quoted, Outside;
      ghost var w := Written();
      if format {
        ok := Append(Tabs(depth), 0);
        if !ok {
          return false;
        }
      }
      assert Written() == w + Indent(format, depth) && |w| == old(offset);
      hide Written, Holds;
      ok := PrintStringPtr(key);
      if !ok {
        return false;
      }
      UpdateOffset(w + Indent(format, depth), Quoted(key));
      ok := Append(Colon(format), 0);
      ThreeParts(w, Indent(format, depth), Quoted(key), Colon(format));
    }

    /** The body of the loop over the members of an object. */
    method PrintMember(e: Entry<Json>, more: bool) returns (ok: bool)
      requires Valid() && depth > 0
      modifies this, buffer
      ensures Valid() && (buffer == old(buffer) || (!noalloc && fresh(buffer)))
      ensures Limit() == old(Limit()) && Outside() == old(Outside())
      ensures ok <==> CanPrint(e.item, old(depth))
                      && old(offset) + |MemberText(e, format, old(depth), more)| + 2 <= Limit()
      ensures ok ==> depth == old(depth) && Written() == old(Written()) + MemberText(e, format, depth, more)
                     && offset == old(offset) + |MemberText(e, format, depth, more)|
      decreases e.item, 3
    {
      hide Text, CanPrint, KeyText, Written, Outside;
      ghost var w, value := Written(), Text(e.item, format, depth);
      ok := PrintKey(e.key);
      if !ok {
        return false;
      }
      ok := PrintInside(e.item);
      if !ok {
        return false;
      }
      ok := Append(LineEnd(format, more), 1);
      ThreeParts(w, KeyText(e.key, format, depth), value, LineEnd(format, more));
    }
  }

  // --- Entry points ---------------------------------------------------------------

  const DEFAULT_BUFFER_SIZE: nat := 256

  /** `cJSON_PrintPreallocated`: the exact size a fixed buffer must have. */
  method PrintPreallocated(item: Json, buffer: array<Byte>, length: int, format: bool) returns (ok: bool)
    requires length <= buffer.Length && length <= INT_MAX
    modifies buffer
    ensures ok <==> CanPrint(item, 0) && |Text(item, format, 0)| + 2 <= length
    ensures ok ==> buffer[..|Text(item, format, 0)| + 1] == Text(item, format, 0) + ['\0']
    ensures forall i :: 0 <= i < buffer.Length && length <= i ==> buffer[i] == old(buffer[i])
  {
    if length < 0 {
      return false;
    }
    hide Text, CanPrint;
    var p := new PrintBuffer(buffer, length, true, format);
    ghost var w, outside, t := p.Written(), p.Outside(), Text(item, format, 0);
    ok := p.PrintValue(item);
    assert w + t == t;
    forall i | length <= i < buffer.Length ensures buffer[i] == old(buffer[i]) {
      assert p.Outside()[i - length] == outside[i - length];
    }
  }

  /** `print`: the text and its NUL, from a buffer that grows. */
  method Print(item: Json, format: bool) returns (printed: Option<seq<Byte>>)
    ensures printed == if CanPrint(item, 0) && |Text(item, format, 0)| + 2 <= INT_MAX
                       then Some(Text(item, format, 0) + ['\0']) else None
  {
    hide Text, CanPrint;
    var buffer := new Byte[DEFAULT_BUFFER_SIZE];
    var p := new PrintBuffer(buffer, DEFAULT_BUFFER_SIZE, false, format);
    ghost var w, t := p.Written(), Text(item, format, 0);
    var ok := p.PrintValue(item);
    if !ok {
      return None;
    }
    assert w + t == t;
    assert p.buffer[|t|] == '\0';
    p.UpdateOffset(w, t);
    assert p.buffer[..p.offset + 1] == p.Written() + ['\0'];
    printed := Some(p.buffer[..p.offset + 1]);
  }

  /** `cJSON_PrintBuffered`: the same text in a buffer that starts with a given size. */
  method PrintBuffered(item: Json, prebuffer: int, format: bool) returns (buffer: array?<Byte>)
    requires prebuffer <= INT_MAX
    ensures buffer != null <==> prebuffer >= 0 && CanPrint(item, 0) && |Text(item, format, 0)| + 2 <= INT_MAX
    ensures buffer != null ==> fresh(buffer) && |Text(item, format, 0)| < buffer.Length
                               && buffer[..|Text(item, format, 0)| + 1] == Text(item, format, 0) + ['\0']
  {
    if prebuffer < 0 {
      return null;
    }
    hide Text, CanPrint;
    var first := new Byte[prebuffer];
    var p := new PrintBuffer(first, prebuffer, false, format);
    ghost var w, t := p.Written(), Text(item, format, 0);
    var ok := p.PrintValue(item);
    if !ok {
      return null;
    }
    assert w + t == t;
    assert p.buffer[|t|] == '\0';
    return p.buffer;
  }

  ghost predicate ItemsPrint(items: seq<Json>, depth: nat)
  {
    forall x | x in items :: CanPrint(x, depth)
  }

  ghost predicate MembersPrint(ms: seq<Entry<Json>>, depth: nat)
  {
    forall e | e in ms :: CanPrint(e.item, depth)
  }

  lemma ArrayText(items: seq<Json>, format: bool, depth: nat)
    ensures Text(Array(items), format, depth) == OPENING_BRACKET + ItemsText(items, format, depth + 1) + CLOSING_BRACKET
    ensures CanPrint(Array(items), depth) <==> depth < NESTING_LIMIT && ItemsPrint(items, depth + 1)
  {
  }

  lemma ObjectText(ms: seq<Entry<Json>>, format: bool, depth: nat)
    ensures Text(Object(ms), format, depth)
         == Opening(format) + MembersText(ms, format, depth + 1) + Closing(format, depth)
    ensures |Opening(format)| > 0 && |Closing(format, depth)| > 0
    ensures CanPrint(Object(ms), depth) <==> depth < NESTING_LIMIT && MembersPrint(ms, depth + 1)
  {
  }

  lemma ItemsStep(items: seq<Json>, i: nat, format: bool, depth: nat)
    requires i < |items|
    ensures ItemsText(items[i..], format, depth)
         == ItemText(items[i], format, depth, i + 1 < |items|) + ItemsText(items[i + 1..], format, depth)
  {
    assert items[i..][1..] == items[i + 1..];
  }

  lemma ItemsEnd(items: seq<Json>, i: nat, format: bool, depth: nat)
    requires i == |items|
    ensures ItemsText(items[i..], format, depth) == []
  {
  }

  lemma ThreeParts(w: seq<Byte>, x: seq<Byte>, y: seq<Byte>, z: seq<Byte>)
    ensures ((w + x) + y) + z == w + (x + y + z)
  {
  }

  lemma MembersStep(ms: seq<Entry<Json>>, i: nat, format: bool, depth: nat)
    requires i < |ms|
    ensures MembersText(ms[i..], format, depth)
         == MemberText(ms[i], format, depth, i + 1 < |ms|) + MembersText(ms[i + 1..], format, depth)
  {
    assert ms[i..][1..] == ms[i + 1..];
  }

  lemma MembersEnd(ms: seq<Entry<Json>>, i: nat, format: bool, depth: nat)
    requires i == |ms|
    ensures MembersText(ms[i..], format, depth) == []
  {
  }

  // --- Counting escapes -----------------------------------------------------------

  lemma EscapedNil()
    ensures Escaped([]) == []
  {
  }

  lemma {:induction false} EscapedAppend(s: CString, t: CString)
    ensures Escaped(s + t) == Escaped(s) + Escaped(t)
  {
    hide EscapeByte;
    if s == [] {
      assert s + t == t;
    } else {
      assert (s + t)[1..] == s[1..] + t;
      EscapedAppend(s[1..], t);
    }
  }

  lemma EscapedStep(s: CString, i: nat)
    requires i < |s|
    ensures Escaped(s[..i + 1]) == Escaped(s[..i]) + EscapeByte(s[i])
    ensures |Escaped(s[..i + 1])| <= |Escaped(s)|
  {
    hide EscapeByte;
    assert s[..i + 1] == s[..i] + [s[i]] && s == s[..i + 1] + s[i + 1..];
    EscapedAppend(s[..i], [s[i]]);
    EscapedAppend(s[..i + 1], s[i + 1..]);
    assert Escaped([s[i]]) == EscapeByte(s[i]);
  }

  lemma {:induction false} NoEscapes(s: CString)
    requires |Escaped(s)| == |s|
    ensures Escaped(s) == s
  {
    if s != [] {
      EscapedLonger(s[1..]);
      NoEscapes(s[1..]);
      assert s == [s[0]] + s[1..];
    }
  }

  lemma {:induction false} EscapedLonger(s: CString)
    ensures |Escaped(s)| >= |s|
  {
    if s != [] {
      EscapedLonger(s[1..]);
    }
  }

  /** The loop that counts the additional bytes that escaping needs. */
  method EscapeCharacters(s: CString) returns (count: nat)
    ensures |Escaped(s)| == |s| + count
  {
    count := 0;
    var i := 0;
    assert s[..0] == [];
    EscapedNil();
    while i < |s|
      invariant 0 <= i <= |s| && |Escaped(s[..i])| == i + count
    {
      EscapedStep(s, i);
      hide Escaped;
      match s[i] {
        case '\"' | '\\' | '\U{0008}' | '\U{000C}' | '\n' | '\r' | '\t' => count := count + 1;
        case c => if c < ' ' { count := count + 5; }
      }
      i := i + 1;
    }
    assert s[..i] == s;
  }
}
