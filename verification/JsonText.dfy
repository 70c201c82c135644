/**
 The text of a JSON tree, formatted or not: what the printer writes and the
 parser reads back (RFC 8259, sections 2 to 7).
 */
module JsonText {
  import opened Bytes
  import opened Json

  const NESTING_LIMIT: nat := 1000

  function HexDigit(d: nat): CChar
    requires d < 16
  {
    if d < 10 then (48 + d) as char else (87 + d) as char
  }

  lemma DigitIs(d: nat)
    requires d < 16
    ensures HexDigit(d) == "0123456789abcdef"[d]
  {
  }

  /** A byte inside a string literal. */
  function EscapeByte(c: CChar): (r: CString)
    ensures |r| > 0
  {
    if c == '\\' then "\\\\"
    else if c == '\"' then "\\\""
    else if c == '\U{0008}' then "\\b"
    else if c == '\U{000C}' then "\\f"
    else if c == '\n' then "\\n"
    else if c == '\r' then "\\r"
    else if c == '\t' then "\\t"
    else if c < ' ' then ['\\', 'u', '0', '0', HexDigit(c as int / 16), HexDigit(c as int % 16)]
    else [c]
  }

  function Escaped(s: CString): CString
  {
    if s == [] then [] else EscapeByte(s[0]) + Escaped(s[1..])
  }

  function Quoted(s: CString): CString
  {
    ['\"'] + Escaped(s) + ['\"']
  }

  /** `%d`. */
  function Signed(n: int): CString
  {
    if n < 0 then ['-'] + Decimal(-n) else Decimal(n)
  }

  function Tabs(n: nat): (r: CString)
    ensures |r| == n
  {
    seq(n, _ => '\t')
  }

  const OPENING_BRACKET: CString := "["
  const CLOSING_BRACKET: CString := "]"

  /** What stands between elements of an array. */
  function Separator(format: bool, more: bool): CString
  {
    if !more then [] else if format then [',', ' '] else [',']
  }

  function Opening(format: bool): CString
  {
    if format then ['{', '\n'] else ['{']
  }

  function Closing(format: bool, depth: nat): CString
  {
    if format then Tabs(depth) + ['}'] else ['}']
  }

  function Indent(format: bool, depth: nat): CString
  {
    if format then Tabs(depth) else []
  }

  function Colon(format: bool): CString
  {
    if format then [':', '\t'] else [':']
  }

  /** What ends a member of an object. */
  function LineEnd(format: bool, more: bool): CString
  {
    (if more then [','] else []) + (if format then ['\n'] else [])
  }

  /** The text of an item that stands at nesting level `depth`. */
  function Text(j: Json, format: bool, depth: nat): CString
    decreases j, 0
  {
    match j
    case Invalid => []
    case Null => "null"
    case False => "false"
    case True => "true"
    case Number(n) => Signed(n)
    case String(s) => Quoted(s)
    case Array(items) => OPENING_BRACKET + ItemsText(items, format, depth + 1) + CLOSING_BRACKET
    case Object(ms) => Opening(format) + MembersText(ms, format, depth + 1) + Closing(format, depth)
  }

  function ItemsText(items: seq<Json>, format: bool, depth: nat): CString
    decreases items, 0
  {
    if items == [] then []
    else ItemText(items[0], format, depth, |items| > 1) + ItemsText(items[1..], format, depth)
  }

  /** One element, and what separates it from the next. */
  function ItemText(j: Json, format: bool, depth: nat, more: bool): CString
    decreases j, 1
  {
    Text(j, format, depth) + Separator(format, more)
  }

  function MembersText(ms: seq<Entry<Json>>, format: bool, depth: nat): CString
    decreases ms, 0
  {
    if ms == [] then []
    else MemberText(ms[0], format, depth, |ms| > 1) + MembersText(ms[1..], format, depth)
  }

  /** What comes before the value of a member. */
  function KeyText(key: CString, format: bool, depth: nat): CString
  {
    Indent(format, depth) + Quoted(key) + Colon(format)
  }

  /** One member, with what comes before and after it on its line. */
  function MemberText(e: Entry<Json>, format: bool, depth: nat, more: bool): CString
    decreases e, 0
  {
    KeyText(e.key, format, depth) + Text(e.item, format, depth) + LineEnd(format, more)
  }

  /** The tree has no item of invalid type and is not nested too deeply. */
  predicate CanPrint(j: Json, depth: nat)
  {
    match j
    case Invalid => false
    case Array(items) => depth < NESTING_LIMIT && forall x | x in items :: CanPrint(x, depth + 1)
    case Object(ms) => depth < NESTING_LIMIT && forall e | e in ms :: CanPrint(e.item, depth + 1)
    case _ => true
  }
}
