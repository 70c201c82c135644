/**
 JSON pointers (RFC 6901) as byte strings: escaping, matching a member name
 against a token, array indices, following a pointer through a tree, and
 finding the pointer of an item.
 */
module Pointer {
  import opened Bytes
  import opened Sequences
  import opened Json

  // --- Escaping -------------------------------------------------------------

  function EncodeChar(c: CChar): (r: CString)
    ensures |r| > 0
  {
    if c == '/' then "~1" else if c == '~' then "~0" else [c]
  }

  /** A member name as a token: `~` becomes `~0` and `/` becomes `~1` (RFC 6901, section 3). */
  function Encode(s: CString): CString
  {
    if s == [] then [] else EncodeChar(s[0]) + Encode(s[1..])
  }

  lemma {:induction false} EncodeAppend(s: CString, t: CString)
    ensures Encode(s + t) == Encode(s) + Encode(t)
  {
    if s == [] {
      assert s + t == t;
    } else {
      assert (s + t)[1..] == s[1..] + t;
      EncodeAppend(s[1..], t);
    }
  }

  /** Escaped names contain no separator. */
  lemma {:induction false} EncodeNoSlash(s: CString)
    ensures '/' !in Encode(s)
  {
    if s != [] {
      EncodeNoSlash(s[1..]);
    }
  }

  /** Different names have different tokens. */
  lemma {:induction false} EncodeInjective(s: CString, t: CString)
    requires Encode(s) == Encode(t)
    ensures s == t
  {
    if s != [] && t != [] {
      var es, et := EncodeChar(s[0]), EncodeChar(t[0]);
      assert Encode(s)[0] == es[0] && Encode(t)[0] == et[0];
      if |es| == 2 {
        assert Encode(s)[1] == es[1];
      }
      if |et| == 2 {
        assert Encode(t)[1] == et[1];
      }
      assert s[0] == t[0];
      assert Encode(s)[|es|..] == Encode(s[1..]);
      assert Encode(t)[|es|..] == Encode(t[1..]);
      EncodeInjective(s[1..], t[1..]);
    }
  }

  /** Every `~` with this digit behind it replaced, from left to right. */
  function WithoutEscape(s: CString, digit: CChar, plain: CChar): CString
  {
    if |s| < 2 then s
    else if s[0] == '~' && s[1] == digit then [plain] + WithoutEscape(s[2..], digit, plain)
    else [s[0]] + WithoutEscape(s[1..], digit, plain)
  }

  /** Behind a byte that begins no escape nothing else changes. */
  lemma EscapeBehind(c: CChar, s: CString, digit: CChar, plain: CChar)
    requires c == '~' ==> s != [] && s[0] != digit
    ensures WithoutEscape([c] + s, digit, plain) == [c] + WithoutEscape(s, digit, plain)
  {
    assert ([c] + s)[1..] == s;
  }

  lemma EscapeHere(s: CString, digit: CChar, plain: CChar)
    ensures WithoutEscape(['~', digit] + s, digit, plain) == [plain] + WithoutEscape(s, digit, plain)
  {
    assert (['~', digit] + s)[2..] == s;
  }

  /** A name of which only the tildes are escaped. */
  function TildesEncoded(s: CString): CString
  {
    if s == [] then [] else (if s[0] == '~' then "~0" else [s[0]]) + TildesEncoded(s[1..])
  }

  lemma EncodeTilde(rest: CString)
    ensures WithoutEscape("~0" + rest, '1', '/') == "~0" + WithoutEscape(rest, '1', '/')
  {
    EscapeBehind('0', rest, '1', '/');
    EscapeBehind('~', ['0'] + rest, '1', '/');
    hide WithoutEscape;
    assert "~0" + rest == ['~'] + (['0'] + rest);
    assert "~0" + WithoutEscape(rest, '1', '/') == ['~'] + (['0'] + WithoutEscape(rest, '1', '/'));
  }

  lemma {:induction false} SlashesDecoded(s: CString)
    ensures WithoutEscape(Encode(s), '1', '/') == TildesEncoded(s)
  {
    if s == [] {
    } else {
      hide WithoutEscape;
      var rest := Encode(s[1..]);
      SlashesDecoded(s[1..]);
      if s[0] == '/' {
        EscapeHere(rest, '1', '/');
      } else if s[0] == '~' {
        EncodeTilde(rest);
      } else {
        EscapeBehind(s[0], rest, '1', '/');
      }
    }
  }

  lemma {:induction false} TildesDecoded(s: CString)
    ensures WithoutEscape(TildesEncoded(s), '0', '~') == s
  {
    if s != [] {
      TildesDecoded(s[1..]);
      if s[0] == '~' {
        EscapeHere(TildesEncoded(s[1..]), '0', '~');
      } else {
        EscapeBehind(s[0], TildesEncoded(s[1..]), '0', '~');
      }
    }
  }

  /**
   Decoding as RFC 6901, section 4, has it, first `~1` and then `~0`, undoes escaping,
   and no slash is left in a token. The source decodes in place: `InPlace.DecodesIff`.
   */
  lemma StandardDecodes(s: CString)
    ensures WithoutEscape(WithoutEscape(Encode(s), '1', '/'), '0', '~') == s
    ensures '/' !in Encode(s)
  {
    SlashesDecoded(s);
    TildesDecoded(s);
    EncodeNoSlash(s);
  }

  lemma {:induction false} EncodeFold(s: CString, cs: bool)
    ensures KeyOf(cs, Encode(s)) == Encode(KeyOf(cs, s))
  {
    if !cs && s != [] {
      EncodeFold(s[1..], false);
      assert Fold(s)[0] == ToLower(s[0]);
      assert Fold(s)[1..] == Fold(s[1..]);
      assert Fold(Encode(s)) == Fold(EncodeChar(s[0])) + Fold(Encode(s[1..]));
      assert Fold(EncodeChar(s[0])) == EncodeChar(ToLower(s[0]));
    }
  }

  /** `pointer_encoded_length`. */
  method EncodedLength(s: CString) returns (length: nat)
    ensures length == |Encode(s)|
  {
    length := 0;
    var i := 0;
    while i < |s|
      invariant 0 <= i <= |s| && length == |Encode(s[..i])|
    {
      EncodeAppend(s[..i], [s[i]]);
      assert s[..i + 1] == s[..i] + [s[i]];
      assert Encode([s[i]]) == EncodeChar(s[i]);
      if s[i] == '~' || s[i] == '/' {
        length := length + 1;
      }
      length := length + 1;
      i := i + 1;
    }
    assert s[..i] == s;
  }

  lemma EncodeStep(s: CString, i: nat)
    requires i < |s|
    ensures Encode(s[i..]) == EncodeChar(s[i]) + Encode(s[i + 1..])
  {
    assert s[i..][1..] == s[i + 1..];
  }

  lemma EncodeNil()
    ensures Encode([]) == []
  {
  }

  /** The bytes of one escaped character go into the buffer at `d`. */
  method WriteChar(destination: array<char>, d: nat, c: CChar) returns (d': nat)
    requires d + |EncodeChar(c)| <= destination.Length
    modifies destination
    ensures d' == d + |EncodeChar(c)|
    ensures destination[..d] == old(destination[..d])
    ensures destination[d..d'] == EncodeChar(c)
    ensures destination[d'..] == old(destination[d'..])
  {
    d' := d;
    if c == '/' {
      destination[d] := '~';
      destination[d + 1] := '1';
      d' := d' + 1;
    } else if c == '~' {
      destination[d] := '~';
      destination[d + 1] := '0';
      d' := d' + 1;
    } else {
      destination[d] := c;
    }
    d' := d' + 1;
  }

  /** `encode_string_as_pointer`: writes the token and its NUL from position `at` on, and nothing else. */
  method EncodeStringAsPointer(destination: array<char>, at: nat, source: CString) returns (end: nat)
    requires at + |Encode(source)| < destination.Length
    modifies destination
    ensures end == at + |Encode(source)|
    ensures destination[..at] == old(destination[..at])
    ensures destination[at..end] == Encode(source) && destination[end] == '\0'
    ensures destination[end + 1..] == old(destination[end + 1..])
  {
    hide Encode, EncodeChar;
    var i := 0;
    end := at;
    ghost var before := destination[..];
    assert source[0..] == source;
    while i < |source|
      invariant 0 <= i <= |source| && at <= end
      invariant end + |Encode(source[i..])| == at + |Encode(source)|
      invariant destination[..at] == before[..at]
      invariant destination[at..end] + Encode(source[i..]) == Encode(source)
      invariant destination[end..] == before[end..]
    {
      ghost var written, d := destination[at..end], end;
      EncodeStep(source, i);
      end := WriteChar(destination, end, source[i]);
      assert destination[..d][..at] == destination[..at] && destination[..d][at..] == destination[at..d];
      assert destination[at..end] == written + destination[d..end];
      AppendAssociates(written, EncodeChar(source[i]), Encode(source[i + 1..]));
      i := i + 1;
    }
    EncodeNil();
    assert source[i..] == [];
    assert destination[at..end] + [] == destination[at..end];
    assert destination[end..][1..] == destination[end + 1..];
    destination[end] := '\0';
  }

  // --- Tokens ---------------------------------------------------------------

  /** The first token of a pointer, up to the next `/`. */
  function Token(pointer: CString): CString
  {
    pointer[..UpTo(pointer, '/')]
  }

  /** What follows the first token. */
  function AfterToken(pointer: CString): (r: CString)
    ensures r == [] || r[0] == '/'
  {
    pointer[UpTo(pointer, '/')..]
  }

  predicate IsTail(s: CString)
  {
    s == [] || s[0] == '/'
  }

  lemma TokenThenTail(t: CString, tail: CString)
    requires '/' !in t && IsTail(tail)
    ensures Token(t + tail) == t && AfterToken(t + tail) == tail
  {
    UpToIs(t + tail, '/', |t|);
  }

  /** A member called `name` is what the first token is for. */
  predicate MatchesToken(name: CString, pointer: CString, cs: bool)
  {
    KeyOf(cs, Token(pointer)) == Encode(KeyOf(cs, name))
  }

  lemma MatchesEnd(name: CString, pointer: CString, cs: bool)
    requires name == [] || IsTail(pointer)
    ensures MatchesToken(name, pointer, cs) <==> name == [] && IsTail(pointer)
  {
  }

  predicate SameByte(a: CChar, b: CChar, cs: bool)
  {
    if cs then a == b else ToLower(a) == ToLower(b)
  }

  lemma SplitHead(t: CString, x: CString, y: CString)
    ensures t == x + y <==> |t| >= |x| && t[..|x|] == x && t[|x|..] == y
  {
  }

  /** Matching goes byte by byte ... */
  lemma MatchesPlain(name: CString, pointer: CString, cs: bool)
    requires name != [] && !IsTail(pointer) && pointer[0] != '~'
    ensures MatchesToken(name, pointer, cs) <==>
      (SameByte(name[0], pointer[0], cs) && MatchesToken(name[1..], pointer[1..], cs))
  {
    var n, t := KeyOf(cs, name), KeyOf(cs, Token(pointer));
    assert Token(pointer[1..]) == Token(pointer)[1..];
    assert n[1..] == KeyOf(cs, name[1..]) && t[1..] == KeyOf(cs, Token(pointer[1..]));
    SplitHead(t, EncodeChar(n[0]), Encode(n[1..]));
    assert n[0] == (if cs then name[0] else ToLower(name[0])) && t[..1] == [t[0]];
    assert t[0] == (if cs then pointer[0] else ToLower(pointer[0]));
    assert |EncodeChar(n[0])| == 2 && |t| > 1 ==> t[..2][0] == t[0];
  }

  lemma TokenOfEscape(pointer: CString, cs: bool)
    requires !IsTail(pointer) && pointer[0] == '~'
    ensures var t := KeyOf(cs, Token(pointer));
      if |pointer| > 1 && pointer[1] != '/'
      then |t| >= 2 && t[..2] == ['~', if cs then pointer[1] else ToLower(pointer[1])] && t[2..] == KeyOf(cs, Token(pointer[2..]))
      else t == "~"
  {
    if |pointer| > 1 && pointer[1] != '/' {
      assert Token(pointer[2..]) == Token(pointer)[2..];
    } else {
      assert Token(pointer) == "~";
    }
  }

  lemma NameHead(name: CString, cs: bool)
    requires name != []
    ensures KeyOf(cs, name) == [if cs then name[0] else ToLower(name[0])] + KeyOf(cs, name[1..])
  {
  }

  /** ... an escape sequence counting as one. */
  lemma MatchesEscape(name: CString, pointer: CString, cs: bool)
    requires name != [] && !IsTail(pointer) && pointer[0] == '~'
    ensures MatchesToken(name, pointer, cs) <==>
      (|pointer| > 1
       && ((pointer[1] == '0' && name[0] == '~') || (pointer[1] == '1' && name[0] == '/'))
       && MatchesToken(name[1..], pointer[2..], cs))
  {
    var n, t := KeyOf(cs, name), KeyOf(cs, Token(pointer));
    TokenOfEscape(pointer, cs);
    NameHead(name, cs);
    SplitHead(t, EncodeChar(n[0]), Encode(n[1..]));
    assert Encode(n) == EncodeChar(n[0]) + Encode(n[1..]);
    hide KeyOf, Token, Encode;
    assert n[1..] == KeyOf(cs, name[1..]);
    assert |t| >= 2 ==> t[..1] == ['~'] && t[..2] == [t[0], t[1]];
  }

  /** `compare_pointers`: the loop over a name and a token. */
  method ComparePointers(name: CString, pointer: CString, cs: bool) returns (same: bool)
    ensures same == MatchesToken(name, pointer, cs)
  {
    hide MatchesToken, KeyOf;
    var i, j := 0, 0;
    assert name[0..] == name && pointer[0..] == pointer;
    while i < |name| && j < |pointer| && pointer[j] != '/'
      invariant 0 <= i <= |name| && 0 <= j <= |pointer|
      invariant MatchesToken(name, pointer, cs) == MatchesToken(name[i..], pointer[j..], cs)
    {
      if pointer[j] == '~' {
        MatchesEscape(name[i..], pointer[j..], cs);
      } else {
        MatchesPlain(name[i..], pointer[j..], cs);
      }
      assert name[i..][1..] == name[i + 1..] && pointer[j..][1..] == pointer[j + 1..];
      if pointer[j] == '~' {
        var escape: char := if j + 1 < |pointer| then pointer[j + 1] else '\0';
        if (escape != '0' || name[i] != '~') && (escape != '1' || name[i] != '/') {
          return false;
        }
        assert pointer[j..][2..] == pointer[j + 2..];
        j := j + 1;
      } else if (!cs && ToLower(name[i]) != ToLower(pointer[j])) || (cs && name[i] != pointer[j]) {
        return false;
      }
      i, j := i + 1, j + 1;
    }
    MatchesEnd(name[i..], pointer[j..], cs);
    if (j < |pointer| && pointer[j] != '/') != (i < |name|) {
      return false;
    }
    return true;
  }

  /** A token produced by escaping `t` matches exactly the names that compare equal to `t`. */
  lemma MatchesEncoded(name: CString, t: CString, tail: CString, cs: bool)
    requires IsTail(tail)
    ensures MatchesToken(name, Encode(t) + tail, cs) <==> KeyOf(cs, name) == KeyOf(cs, t)
  {
    EncodeNoSlash(t);
    TokenThenTail(Encode(t), tail);
    EncodeFold(t, cs);
    if Encode(KeyOf(cs, t)) == Encode(KeyOf(cs, name)) {
      EncodeInjective(KeyOf(cs, t), KeyOf(cs, name));
    }
  }

  // --- Array indices --------------------------------------------------------

  /**
   The index a token denotes: digits only, without a leading zero (RFC 6901, section
   4). Unlike the standard, and as the code has it, the empty token denotes 0.
   */
  function DecodeIndex(pointer: CString): Option<nat>
  {
    var t := Token(pointer);
    if (forall i :: 0 <= i < |t| ==> IsDigit(t[i])) && !(|t| > 1 && t[0] == '0')
    then Some(DigitsValue(0, t)) else None
  }

  /** `decode_array_index_from_pointer`. */
  method DecodeArrayIndex(pointer: CString) returns (index: Option<nat>)
    ensures index == DecodeIndex(pointer)
  {
    ghost var t := Token(pointer);
    if 0 < |pointer| && pointer[0] == '0' && 1 < |pointer| && pointer[1] != '/' {
      assert t[0] == pointer[0] && |t| > 1;
      return None;
    }
    var parsed: nat, position := 0, 0;
    assert t[0..] == t;
    while position < |pointer| && IsDigit(pointer[position])
      invariant 0 <= position <= |t|
      invariant forall i :: 0 <= i < position ==> IsDigit(t[i])
      invariant (forall i :: position <= i < |t| ==> IsDigit(t[i])) ==>
        DigitsValue(0, t) == DigitsValue(parsed, t[position..])
    {
      assert position < |t|;
      assert t[position..][1..] == t[position + 1..];
      parsed := 10 * parsed + (pointer[position] as int - 48);
      position := position + 1;
    }
    if position < |pointer| && pointer[position] != '/' {
      assert t[position] == pointer[position];
      return None;
    }
    return Some(parsed);
  }

  lemma DecodeDecimal(n: nat, tail: CString)
    requires IsTail(tail)
    ensures DecodeIndex(Decimal(n) + tail) == Some(n)
  {
    TokenThenTail(Decimal(n), tail);
    DecimalValue(n);
  }

  /** The tokens that denote an index are exactly its numeral and, for 0, the empty token. */
  lemma DecodeIndexIff(pointer: CString, n: nat)
    ensures DecodeIndex(pointer) == Some(n) <==> Token(pointer) == Decimal(n) || (n == 0 && Token(pointer) == [])
  {
    var t := Token(pointer);
    DecimalValue(n);
    if t != [] && DecodeIndex(pointer).Some? {
      ValueDecimal(t);
    }
    hide Decimal, DigitsValue;
  }

  // --- Following a pointer --------------------------------------------------

  /** A place in a tree: the positions of the children on the way down. */
  type Location = seq<nat>

  /** The children of an item; scalars have none. */
  function Kids(j: Json): seq<Json>
  {
    match j
    case Array(items) => items
    case Object(ms) => seq(|ms|, i requires 0 <= i < |ms| => ms[i].item)
    case _ => []
  }

  predicate Exists(j: Json, at: Location)
    decreases |at|
  {
    at == [] || (at[0] < |Kids(j)| && Exists(Kids(j)[at[0]], at[1..]))
  }

  function Get(j: Json, at: Location): Json
    requires Exists(j, at)
    decreases |at|
  {
    if at == [] then j else Get(Kids(j)[at[0]], at[1..])
  }

  /** The first member whose name the token matches, or the end. */
  function MatchIndex(ms: seq<Entry<Json>>, pointer: CString, cs: bool): (i: nat)
    ensures i <= |ms|
    ensures i < |ms| ==> MatchesToken(ms[i].key, pointer, cs)
  {
    if ms == [] || MatchesToken(ms[0].key, pointer, cs) then 0
    else 1 + MatchIndex(ms[1..], pointer, cs)
  }

  lemma {:induction false} MatchIndexEncoded(ms: seq<Entry<Json>>, t: CString, tail: CString, cs: bool)
    requires IsTail(tail)
    ensures MatchIndex(ms, Encode(t) + tail, cs) == IndexOf(ms, t, cs)
  {
    if ms != [] {
      MatchesEncoded(ms[0].key, t, tail, cs);
      MatchIndexEncoded(ms[1..], t, tail, cs);
    }
  }

  /** The child a token leads to. */
  function Child(j: Json, pointer: CString, cs: bool): (r: Option<nat>)
    ensures r.Some? ==> r.value < |Kids(j)|
  {
    match j
    case Array(items) =>
      var index := DecodeIndex(pointer);
      if index.Some? && index.value < |items| then index else None
    case Object(ms) =>
      var i := MatchIndex(ms, pointer, cs);
      if i < |ms| then Some(i) else None
    case _ => None
  }

  /** Where a pointer leads; a pointer that does not start with `/` leads nowhere further. */
  function Locate(j: Json, pointer: CString, cs: bool): (r: Option<Location>)
    ensures r.Some? ==> Exists(j, r.value)
    decreases |pointer|
  {
    if pointer == [] || pointer[0] != '/' then Some([])
    else
      match Child(j, pointer[1..], cs)
      case None => None
      case Some(i) =>
        match Locate(Kids(j)[i], AfterToken(pointer[1..]), cs)
        case None => None
        case Some(at) =>
          assert ([i] + at)[1..] == at;
          Some([i] + at)
  }

  /** A place found below `at`. */
  function Under(at: Location, found: Option<Location>): Option<Location>
  {
    match found
    case None => None
    case Some(more) => Some(at + more)
  }

  lemma LocateStep(j: Json, token: CString, cs: bool)
    ensures Locate(j, "/" + token, cs)
         == match Child(j, token, cs) case None => None
            case Some(i) => Under([i], Locate(Kids(j)[i], AfterToken(token), cs))
  {
    assert ("/" + token)[1..] == token;
  }

  /** The loop over the members of an object that looks for the one a token matches. */
  method FindMember(ms: seq<Entry<Json>>, token: CString, cs: bool) returns (i: nat)
    ensures i == MatchIndex(ms, token, cs)
  {
    i := 0;
    while i < |ms|
      invariant i <= |ms|
      invariant MatchIndex(ms, token, cs) == i + MatchIndex(ms[i..], token, cs)
    {
      var matched := ComparePointers(ms[i].key, token, cs);
      if matched {
        return;
      }
      assert ms[i..][1..] == ms[i + 1..];
      i := i + 1;
    }
  }

  lemma UnderUnder(at: Location, i: nat, found: Option<Location>)
    ensures Under(at, Under([i], found)) == Under(at + [i], found)
    ensures Under([], found) == found
  {
    match found
    case None =>
    case Some(more) =>
      assert at + ([i] + more) == at + [i] + more;
      assert [] + more == more;
  }

  lemma LocateEnd(j: Json, rest: CString, at: Location, cs: bool)
    requires rest == [] || rest[0] != '/'
    ensures Under(at, Locate(j, rest, cs)) == Some(at)
  {
    assert at + [] == at;
  }

  lemma UnderNone(at: Location)
    ensures Under(at, None) == None
  {
  }

  lemma ExistsHere(j: Json)
    ensures Exists(j, []) && Get(j, []) == j
  {
  }

  /** `get_item_from_pointer`: the loop that walks down the tree. */
  method GetItemFromPointer(root: Json, pointer: CString, cs: bool) returns (found: Option<Location>)
    ensures found == Locate(root, pointer, cs)
    ensures pointer == [] || pointer[0] != '/' ==> found == Some([])
  {
    if pointer == [] || pointer[0] != '/' {
      LocateEnd(root, pointer, [], cs);
    }
    hide Locate, Under, Exists, Get;
    var current, at: Location, rest := root, [], pointer;
    ExistsHere(root);
    UnderUnder([], 0, Locate(root, pointer, cs));
    while rest != [] && rest[0] == '/'
      invariant Exists(root, at) && Get(root, at) == current
      invariant Locate(root, pointer, cs) == Under(at, Locate(current, rest, cs))
      decreases |rest|
    {
      var token := rest[1..];
      assert rest == "/" + token;
      LocateStep(current, token, cs);
      var child: Option<nat> := None;
      if current.Array? {
        child := DecodeArrayIndex(token);
        if child.Some? && child.value >= |current.items| {
          child := None;
        }
      } else if current.Object? {
        var i := FindMember(current.members, token, cs);
        if i < |current.members| {
          child := Some(i);
        }
      }
      assert child == Child(current, token, cs);
      if child.None? {
        UnderNone(at);
        return None;
      }
      ExistsChild(root, at, child.value);
      UnderUnder(at, child.value, Locate(Kids(current)[child.value], AfterToken(token), cs));
      current := Kids(current)[child.value];
      at := at + [child.value];
      rest := token[UpTo(token, '/')..];
    }
    LocateEnd(current, rest, at, cs);
    return Some(at);
  }

  lemma {:induction false} ExistsChild(j: Json, at: Location, i: nat)
    requires Exists(j, at) && i < |Kids(Get(j, at))|
    ensures Exists(j, at + [i]) && Get(j, at + [i]) == Kids(Get(j, at))[i]
    decreases |at|
  {
    if at == [] {
      assert at + [i] == [i];
      assert [i][1..] == [];
    } else {
      ExistsChild(Kids(j)[at[0]], at[1..], i);
      assert (at + [i])[1..] == at[1..] + [i];
    }
  }

  // --- Finding a pointer ----------------------------------------------------

  /** The token by which a child is addressed. */
  function TokenOf(j: Json, i: nat): CString
    requires i < |Kids(j)|
  {
    match j
    case Array(_) => Decimal(i)
    case Object(ms) => Encode(ms[i].key)
  }

  /** The pointer to a place in a tree. */
  function PathTo(j: Json, at: Location): CString
    requires Exists(j, at)
    decreases |at|
  {
    if at == [] then [] else "/" + TokenOf(j, at[0]) + PathTo(Kids(j)[at[0]], at[1..])
  }

  /**
   `cJSONUtils_FindPointerFromObjectTo`. Items are told apart by their place in
   the whole tree; `at` is the place of `j`.
   */
  function FindPointer(j: Json, at: Location, target: Location): Option<CString>
    decreases j, 1, 0
  {
    if at == target then Some([]) else FindAmong(j, 0, at, target)
  }

  /** The loop over the children, from child `i` on. */
  function FindAmong(j: Json, i: nat, at: Location, target: Location): Option<CString>
    requires i <= |Kids(j)|
    decreases j, 0, |Kids(j)| - i
  {
    if i == |Kids(j)| then None
    else
      match FindPointer(Kids(j)[i], at + [i], target)
      case Some(path) => Some("/" + TokenOf(j, i) + path)
      case None => FindAmong(j, i + 1, at, target)
  }

  ghost predicate Reaches(j: Json, at: Location, target: Location)
  {
    |at| <= |target| && target[..|at|] == at && Exists(j, target[|at|..])
  }

  lemma {:induction false} FindPointerPath(j: Json, at: Location, target: Location)
    ensures FindPointer(j, at, target)
         == if Reaches(j, at, target) then Some(PathTo(j, target[|at|..])) else None
    decreases j, 1, 0
  {
    if at == target {
      assert target[|at|..] == [] && target[..|at|] == at;
      assert Reaches(j, at, target) && PathTo(j, target[|at|..]) == [];
    } else {
      FindAmongPath(j, 0, at, target);
      assert FindPointer(j, at, target) == FindAmong(j, 0, at, target);
    }
  }

  lemma {:induction false} FindAmongPath(j: Json, i: nat, at: Location, target: Location)
    requires i <= |Kids(j)| && at != target
    ensures FindAmong(j, i, at, target)
         == if Reaches(j, at, target) && |at| < |target| && i <= target[|at|] then Some(PathTo(j, target[|at|..])) else None
    decreases j, 0, |Kids(j)| - i
  {
    hide Reaches, PathTo, TokenOf;
    ReachesPath(j, at, target);
    if i < |Kids(j)| {
      FindPointerPath(Kids(j)[i], at + [i], target);
      FindAmongPath(j, i + 1, at, target);
      ReachesKid(j, i, at, target);
    }
  }

  lemma ReachesPath(j: Json, at: Location, target: Location)
    requires at != target
    ensures Reaches(j, at, target) ==>
      && |at| < |target| && Exists(j, target[|at|..])
      && target[|at|] < |Kids(j)| && Exists(Kids(j)[target[|at|]], target[|at| + 1..])
      && PathTo(j, target[|at|..])
      == "/" + TokenOf(j, target[|at|]) + PathTo(Kids(j)[target[|at|]], target[|at| + 1..])
  {
    assert target[..|target|] == target;
    if |at| < |target| {
      assert target[|at|..][0] == target[|at|];
      assert target[|at|..][1..] == target[|at| + 1..];
    }
  }

  lemma ReachesKid(j: Json, i: nat, at: Location, target: Location)
    requires i < |Kids(j)| && at != target
    ensures Reaches(Kids(j)[i], at + [i], target)
       <==> Reaches(j, at, target) && |at| < |target| && target[|at|] == i
  {
    if |at| < |target| {
      assert target[..|at| + 1] == target[..|at|] + [target[|at|]];
      assert target[|at|..][0] == target[|at|];
      assert target[|at|..][1..] == target[|at| + 1..];
    }
    assert target[..|target|] == target;
  }

  /** At every object on the way, the child taken is the first of its name. */
  predicate FirstNamed(j: Json, at: Location, cs: bool)
    requires Exists(j, at)
    decreases |at|
  {
    at == [] ||
    ((j.Object? ==> IndexOf(j.members, j.members[at[0]].key, cs) == at[0])
     && FirstNamed(Kids(j)[at[0]], at[1..], cs))
  }

  lemma {:induction false} PathIsTail(j: Json, at: Location)
    requires Exists(j, at)
    ensures IsTail(PathTo(j, at))
  {
  }

  lemma ChildOfToken(j: Json, i: nat, tail: CString, cs: bool)
    requires i < |Kids(j)| && IsTail(tail)
    ensures AfterToken(TokenOf(j, i) + tail) == tail
    ensures Child(j, TokenOf(j, i) + tail, cs)
         == if j.Array? then Some(i) else Some(IndexOf(j.members, j.members[i].key, cs))
  {
    match j
    case Array(items) =>
      DecodeDecimal(i, tail);
      TokenThenTail(Decimal(i), tail);
    case Object(ms) =>
      EncodeNoSlash(ms[i].key);
      TokenThenTail(Encode(ms[i].key), tail);
      MatchIndexEncoded(ms, ms[i].key, tail, cs);
  }

  lemma UnderIs(i: nat, found: Option<Location>, at: Location)
    requires at != []
    ensures Under([i], found) == Some(at) <==> at[0] == i && found == Some(at[1..])
  {
    assert at == [at[0]] + at[1..];
    if found.Some? {
      assert ([i] + found.value)[0] == i && ([i] + found.value)[1..] == found.value;
    }
  }

  /** Following the path to a place leads there exactly when each step takes the first child of its name. */
  lemma {:induction false} LocatePath(j: Json, at: Location, cs: bool)
    requires Exists(j, at)
    ensures Locate(j, PathTo(j, at), cs) == Some(at) <==> FirstNamed(j, at, cs)
    decreases |at|
  {
    if at != [] {
      hide Locate, Child, Under, TokenOf, IsTail;
      var i, rest := at[0], PathTo(Kids(j)[at[0]], at[1..]);
      var token := TokenOf(j, i) + rest;
      PathIsTail(Kids(j)[i], at[1..]);
      assert PathTo(j, at) == "/" + token;
      ChildOfToken(j, i, rest, cs);
      LocatePath(Kids(j)[i], at[1..], cs);
      LocateStep(j, token, cs);
      UnderIs(Child(j, token, cs).value, Locate(Kids(j)[Child(j, token, cs).value], rest, cs), at);
    }
  }

  lemma {:induction false} DistinctFirstNamed(j: Json, at: Location, cs: bool)
    requires Exists(j, at) && DistinctTree(j, cs)
    ensures FirstNamed(j, at, cs)
    decreases |at|
  {
    if at != [] {
      match j {
        case Array(items) => assert items[at[0]] in items;
        case Object(ms) =>
          assert ms[at[0]] in ms;
          DistinctIndexOf(ms, at[0], cs);
        case _ =>
      }
      DistinctFirstNamed(Kids(j)[at[0]], at[1..], cs);
    }
  }

  /**
   The pointer found for an item of a tree leads back to that item exactly when
   no member on the way is shadowed by an earlier member of the same name; a
   place outside the tree has no pointer.
   */
  lemma PointerRoundTrip(root: Json, target: Location, cs: bool)
    ensures Exists(root, target) ==> FindPointer(root, [], target).Some?
    ensures Exists(root, target) ==>
      (Locate(root, FindPointer(root, [], target).value, cs) == Some(target) <==> FirstNamed(root, target, cs))
    ensures !Exists(root, target) ==> FindPointer(root, [], target) == None
    ensures Exists(root, target) && DistinctTree(root, cs) ==> FirstNamed(root, target, cs)
  {
    assert target[..0] == [] && target[0..] == target;
    FindPointerPath(root, [], target);
    if Exists(root, target) {
      LocatePath(root, target, cs);
      if DistinctTree(root, cs) {
        DistinctFirstNamed(root, target, cs);
      }
    }
  }
}
