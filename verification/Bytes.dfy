/**
 C strings as the JSON sources see them: sequences of non-NUL bytes, compared
 with `strcmp` or, without case, through `tolower`.
 */
module Bytes {
  /** A byte that may occur inside a C string. */
  type CChar = c: char | '\0' < c <= '\U{00FF}' witness 'a'

  type CString = seq<CChar>

  /** A byte of a buffer. */
  type Byte = c: char | c <= '\U{00FF}' witness 'a'

  datatype Option<+T> = None | Some(value: T)

  /** `tolower` in the "C" locale. */
  function ToLower(c: CChar): CChar
  {
    if 'A' <= c <= 'Z' then (c as int + 32) as char else c
  }

  function Fold(s: CString): (r: CString)
    ensures |r| == |s|
  {
    seq(|s|, i requires 0 <= i < |s| => ToLower(s[i]))
  }

  /** The form in which a member name takes part in comparisons. */
  function KeyOf(cs: bool, s: CString): CString
  {
    if cs then s else Fold(s)
  }

  const CAPITALS: CString := "ABCDEFGHIJKLMNOPQRSTUVWXYZ"
  const SMALL: CString := "abcdefghijklmnopqrstuvwxyz"

  /** The same letter, or the same letter in the other case. */
  ghost predicate SameLetter(a: CChar, b: CChar)
  {
    a == b || exists i: nat :: TwoCases(a, b, i)
  }

  predicate TwoCases(a: CChar, b: CChar, i: nat)
  {
    i < 26 && ((a == CAPITALS[i] && b == SMALL[i]) || (a == SMALL[i] && b == CAPITALS[i]))
  }

  lemma Letter(i: nat)
    requires i < 26
    ensures CAPITALS[i] == (65 + i) as char && SMALL[i] == (97 + i) as char
  {
  }

  lemma LowerMeans(a: CChar, b: CChar)
    ensures ToLower(a) == ToLower(b) <==> SameLetter(a, b)
  {
    hide CAPITALS, SMALL;
    if 'A' <= a <= 'Z' {
      Letter(a as int - 65);
      assert b as int == a as int + 32 ==> TwoCases(a, b, a as int - 65);
    }
    if 'A' <= b <= 'Z' {
      Letter(b as int - 65);
      assert a as int == b as int + 32 ==> TwoCases(a, b, b as int - 65);
    }
    if a != b && SameLetter(a, b) {
      var i: nat :| TwoCases(a, b, i);
      Letter(i);
    }
  }

  /** Two names are equal without regard to case when they differ in the case of letters at most. */
  lemma FoldMeans(s: CString, t: CString)
    ensures Fold(s) == Fold(t) <==> |s| == |t| && forall i :: 0 <= i < |s| ==> SameLetter(s[i], t[i])
  {
    hide ToLower, SameLetter;
    forall a: CChar, b: CChar ensures ToLower(a) == ToLower(b) <==> SameLetter(a, b) {
      LowerMeans(a, b);
    }
    if Fold(s) == Fold(t) {
      forall i | 0 <= i < |s| ensures SameLetter(s[i], t[i]) {
        assert Fold(s)[i] == Fold(t)[i];
      }
    }
  }

  /** `strcmp`: the difference of the first bytes that differ, NUL included. */
  function Strcmp(a: CString, b: CString): int
  {
    if a == [] && b == [] then 0
    else if a == [] then -(b[0] as int)
    else if b == [] then a[0] as int
    else if a[0] != b[0] then a[0] as int - b[0] as int
    else Strcmp(a[1..], b[1..])
  }

  lemma {:induction false} StrcmpZero(a: CString, b: CString)
    ensures Strcmp(a, b) == 0 <==> a == b
  {
    if a != [] && b != [] && a[0] == b[0] {
      StrcmpZero(a[1..], b[1..]);
      assert a == [a[0]] + a[1..];
      assert b == [b[0]] + b[1..];
    }
  }

  lemma {:induction false} StrcmpAntisymmetric(a: CString, b: CString)
    ensures Strcmp(a, b) == -Strcmp(b, a)
  {
    if a != [] && b != [] && a[0] == b[0] {
      StrcmpAntisymmetric(a[1..], b[1..]);
    }
  }

  lemma {:induction false} StrcmpTransitive(a: CString, b: CString, c: CString)
    requires Strcmp(a, b) <= 0 && Strcmp(b, c) <= 0
    ensures Strcmp(a, c) <= 0
    ensures Strcmp(a, b) < 0 || Strcmp(b, c) < 0 ==> Strcmp(a, c) < 0
  {
    if a != [] && b != [] && c != [] && a[0] == b[0] && b[0] == c[0] {
      StrcmpTransitive(a[1..], b[1..], c[1..]);
    }
  }

  /** A name comes before those it is the beginning of, and before those with a greater byte where they first differ. */
  ghost predicate ComesBefore(a: CString, b: CString)
  {
    exists i: nat :: DiffersAt(a, b, i)
  }

  /** Up to `i` the bytes are the same; there the first string ends or has the lesser byte. */
  ghost predicate DiffersAt(a: CString, b: CString, i: nat)
  {
    i <= |a| && i < |b| && (forall k :: 0 <= k < i ==> a[k] == b[k]) && (i == |a| || a[i] < b[i])
  }

  lemma DiffersBehind(a: CString, b: CString, i: nat)
    requires a != [] && b != [] && a[0] == b[0]
    ensures DiffersAt(a, b, i + 1) <==> DiffersAt(a[1..], b[1..], i)
    ensures !DiffersAt(a, b, 0)
  {
    if DiffersAt(a, b, i + 1) {
      forall k | 0 <= k < i ensures a[1..][k] == b[1..][k] {
        assert a[k + 1] == b[k + 1];
      }
    }
    if DiffersAt(a[1..], b[1..], i) {
      forall k | 0 <= k < i + 1 ensures a[k] == b[k] {
        assert k > 0 ==> a[1..][k - 1] == b[1..][k - 1];
      }
    }
  }

  lemma GreaterFirst(a: CString, b: CString, i: nat)
    requires a != [] && b != [] && a[0] > b[0]
    ensures !DiffersAt(a, b, i)
  {
  }

  /** `strcmp` orders byte by byte. */
  lemma {:induction false} StrcmpOrders(a: CString, b: CString)
    ensures Strcmp(a, b) < 0 <==> ComesBefore(a, b)
  {
    if a != [] && b != [] && a[0] == b[0] {
      StrcmpOrders(a[1..], b[1..]);
      DiffersBehind(a, b, 0);
      hide DiffersAt;
      if ComesBefore(a, b) {
        var i: nat :| DiffersAt(a, b, i);
        assert i != 0;
        DiffersBehind(a, b, i - 1);
        assert DiffersAt(a[1..], b[1..], i - 1);
      }
      if ComesBefore(a[1..], b[1..]) {
        var i: nat :| DiffersAt(a[1..], b[1..], i);
        DiffersBehind(a, b, i);
        assert DiffersAt(a, b, i + 1);
      }
    } else if b != [] && (a == [] || a[0] < b[0]) {
      assert DiffersAt(a, b, 0);
    } else if a != [] && b != [] {
      forall i: nat ensures !DiffersAt(a, b, i) {
        GreaterFirst(a, b, i);
      }
    }
  }

  /** Names are the same byte for byte, or letter for letter. */
  lemma SameNames(s: CString, t: CString, cs: bool)
    ensures KeyOf(cs, s) == KeyOf(cs, t)
            <==> |s| == |t| && forall i :: 0 <= i < |s| ==> if cs then s[i] == t[i] else SameLetter(s[i], t[i])
  {
    FoldMeans(s, t);
    hide Fold, SameLetter;
  }

  /**
   `compare_strings`: `strcmp`, or a loop that compares lower-cased bytes until
   they differ or the first string ends.
   */
  method CompareStrings(string1: CString, string2: CString, caseSensitive: bool) returns (difference: int)
    ensures difference == Strcmp(KeyOf(caseSensitive, string1), KeyOf(caseSensitive, string2))
    ensures difference == 0
            <==> |string1| == |string2|
                 && forall i :: 0 <= i < |string1| ==>
                      if caseSensitive then string1[i] == string2[i] else SameLetter(string1[i], string2[i])
  {
    SameNames(string1, string2, caseSensitive);
    StrcmpZero(KeyOf(caseSensitive, string1), KeyOf(caseSensitive, string2));
    hide SameLetter;
    if caseSensitive {
      return Strcmp(string1, string2);
    }
    ghost var a, b := Fold(string1), Fold(string2);
    var i := 0;
    while i < |string1| && i < |string2| && ToLower(string1[i]) == ToLower(string2[i])
      invariant 0 <= i <= |string1| && i <= |string2|
      invariant Strcmp(a, b) == Strcmp(a[i..], b[i..])
    {
      assert a[i..][1..] == a[i + 1..] && b[i..][1..] == b[i + 1..];
      i := i + 1;
    }
    var c1 := if i < |string1| then ToLower(string1[i]) as int else 0;
    var c2 := if i < |string2| then ToLower(string2[i]) as int else 0;
    return c1 - c2;
  }

  // --- Decimal numerals ---------------------------------------------------

  predicate IsDigit(c: char)
  {
    '0' <= c <= '9'
  }

  function Digit(d: nat): CChar
    requires d < 10
  {
    (48 + d) as char
  }

  /** What `sprintf` writes for `%lu`. */
  function Decimal(n: nat): (s: CString)
    ensures |s| > 0
    ensures forall i :: 0 <= i < |s| ==> IsDigit(s[i])
    ensures s[0] == '0' ==> n == 0 && |s| == 1
  {
    if n < 10 then [Digit(n)] else Decimal(n / 10) + [Digit(n % 10)]
  }

  /** The value of a run of digits, read as the loops of the sources read it. */
  function DigitsValue(acc: nat, s: string): nat
    requires forall i :: 0 <= i < |s| ==> IsDigit(s[i])
    decreases |s|
  {
    if s == [] then acc
    else assert IsDigit(s[0]); DigitsValue(10 * acc + (s[0] as int - 48), s[1..])
  }

  lemma {:induction false} DigitsValueAppend(acc: nat, s: string, d: char)
    requires forall i :: 0 <= i < |s| ==> IsDigit(s[i])
    requires IsDigit(d)
    ensures DigitsValue(acc, s + [d]) == 10 * DigitsValue(acc, s) + (d as int - 48)
    decreases |s|
  {
    if s == [] {
      assert s + [d] == [d];
    } else {
      assert (s + [d])[1..] == s[1..] + [d];
      assert IsDigit(s[0]);
      DigitsValueAppend(10 * acc + (s[0] as int - 48), s[1..], d);
    }
  }

  lemma {:induction false} DecimalValue(n: nat)
    ensures DigitsValue(0, Decimal(n)) == n
  {
    if n >= 10 {
      DecimalValue(n / 10);
      DigitsValueAppend(0, Decimal(n / 10), Digit(n % 10));
    }
  }

  /** A run of digits without a leading zero is the numeral of its value. */
  lemma {:induction false} ValueDecimal(s: string)
    requires s != [] && (forall i :: 0 <= i < |s| ==> IsDigit(s[i])) && (s[0] == '0' ==> |s| == 1)
    ensures Decimal(DigitsValue(0, s)) == s
    ensures s[0] != '0' ==> DigitsValue(0, s) > 0
    decreases |s|
  {
    var n := |s| - 1;
    var front, last := s[..n], s[n];
    assert s == front + [last];
    DigitsValueAppend(0, front, last);
    if n > 0 {
      assert front[0] == s[0];
      ValueDecimal(front);
      hide DigitsValue;
    } else {
      assert DigitsValue(0, front) == 0;
    }
  }

  // --- Scanning -----------------------------------------------------------

  /** How many leading bytes precede the first `c` (all of them if there is none). */
  function UpTo(s: string, c: char): (n: nat)
    ensures n <= |s|
    ensures n < |s| ==> s[n] == c
    ensures forall i :: 0 <= i < n ==> s[i] != c
  {
    if s == [] || s[0] == c then 0 else 1 + UpTo(s[1..], c)
  }

  lemma {:induction false} UpToIs(s: string, c: char, n: nat)
    requires n <= |s| && (n < |s| ==> s[n] == c)
    requires forall i :: 0 <= i < n ==> s[i] != c
    ensures UpTo(s, c) == n
  {
    if n > 0 {
      UpToIs(s[1..], c, n - 1);
    }
  }

  /** The string at the start of a buffer: the bytes before the first NUL. */
  function StringIn(b: seq<Byte>): CString
  {
    b[..UpTo(b, '\0')]
  }
}
