/**
 IPv6 addresses: sixteen bytes that are counted up and compared in place, their
 text, and the node identifiers made from the text.
 */
module Address {
  import JsonText
  import ParseText
  import opened Bytes

  type Octet = n: nat | n < 256

  /** The number that bytes in network order stand for. */
  function Value(b: seq<Octet>): nat
  {
    if b == [] then 0 else Value(b[..|b| - 1]) * 256 + b[|b| - 1]
  }

  function Pow256(k: nat): (r: nat)
    ensures r > 0
  {
    if k == 0 then 1 else Pow256(k - 1) * 256
  }

  const ADDRESSES: nat := 0x1_0000_0000_0000_0000_0000_0000_0000_0000

  lemma Pow256Sixteen()
    ensures Pow256(16) == ADDRESSES
  {
    assert Pow256(4) == 0x1_0000_0000;
    assert Pow256(8) == 0x1_0000_0000_0000_0000;
    assert Pow256(12) == 0x1_0000_0000_0000_0000_0000_0000;
  }

  lemma {:induction false} ValueAppend(p: seq<Octet>, s: seq<Octet>)
    ensures Value(p + s) == Value(p) * Pow256(|s|) + Value(s)
    decreases |s|
  {
    if s == [] {
      assert p + s == p;
    } else {
      var front, last := s[..|s| - 1], s[|s| - 1];
      ValueAppend(p, front);
      assert (p + s)[..|p + s| - 1] == p + front;
      assert Value(p + s) == Value(p + front) * 256 + last;
    }
  }

  lemma {:induction false} ValueBounds(b: seq<Octet>)
    ensures Value(b) < Pow256(|b|)
  {
    if b != [] {
      ValueBounds(b[..|b| - 1]);
    }
  }

  lemma {:induction false} ValueOfLast(s: seq<Octet>)
    ensures (forall i :: 0 <= i < |s| ==> s[i] == 255) ==> Value(s) == Pow256(|s|) - 1
    ensures (forall i :: 0 <= i < |s| ==> s[i] == 0) ==> Value(s) == 0
  {
    if s != [] {
      ValueOfLast(s[..|s| - 1]);
    }
  }

  /** A carry: the byte before a run of 255 goes up by one, and the run becomes zero. */
  lemma Carry(p: seq<Octet>, o: Octet, full: seq<Octet>, zero: seq<Octet>)
    requires o < 255 && |full| == |zero|
    requires forall i :: 0 <= i < |full| ==> full[i] == 255 && zero[i] == 0
    ensures Value(p + [Successor(o)] + zero) == Value(p + [o] + full) + 1
  {
    ValueAppend(p + [o], full);
    ValueAppend(p + [Successor(o)], zero);
    assert (p + [o])[..|p|] == p && (p + [Successor(o)])[..|p|] == p;
    ValueOfLast(full);
    ValueOfLast(zero);
    assert Value(p + [Successor(o)]) == Value(p + [o]) + 1;
    hide Value, Pow256;
    Carried(Value(p + [o]), Pow256(|full|));
  }

  lemma Carried(v: nat, m: nat)
    ensures (v + 1) * m == v * m + m
  {
  }

  /** A byte counted up. */
  function Successor(o: nat): Octet
  {
    (o + 1) % 256
  }

  /** `increment_ipv6_address`: one more, modulo 2 to the power of 128. */
  method Increment(addr: array<Octet>)
    requires addr.Length == 16
    modifies addr
    ensures Value(addr[..]) == (Value(old(addr[..])) + 1) % ADDRESSES
  {
    ghost var before := addr[..];
    var i := 15;
    while i >= 0
      invariant -1 <= i <= 15
      invariant addr[..i + 1] == before[..i + 1]
      invariant forall k :: i < k < 16 ==> addr[k] == 0 && before[k] == 255
    {
      addr[i] := Successor(addr[i]);
      if addr[i] != 0 {
        Incremented(before, addr[..], i);
        return;
      }
      i := i - 1;
    }
    WrappedAround(before, addr[..]);
  }

  lemma Incremented(before: seq<Octet>, after: seq<Octet>, i: nat)
    requires |before| == |after| == 16 && i < 16
    requires after[..i] == before[..i] && before[i] < 255 && after[i] == Successor(before[i])
    requires forall k :: i < k < 16 ==> after[k] == 0 && before[k] == 255
    ensures Value(after) == (Value(before) + 1) % ADDRESSES
  {
    hide Value, Pow256;
    assert before == before[..i] + [before[i]] + before[i + 1..];
    assert after == before[..i] + [Successor(before[i])] + after[i + 1..];
    Carry(before[..i], before[i], before[i + 1..], after[i + 1..]);
    ValueBounds(after);
    Pow256Sixteen();
  }

  lemma WrappedAround(before: seq<Octet>, after: seq<Octet>)
    requires |before| == |after| == 16
    requires forall k :: 0 <= k < 16 ==> after[k] == 0 && before[k] == 255
    ensures Value(after) == (Value(before) + 1) % ADDRESSES
  {
    ValueOfLast(before);
    ValueOfLast(after);
    Pow256Sixteen();
  }

  /** The first byte that differs decides. */
  lemma FirstDifference(a: seq<Octet>, b: seq<Octet>, i: nat)
    requires |a| == |b| && i < |a| && a[..i] == b[..i] && a[i] < b[i]
    ensures Value(a) < Value(b)
  {
    var p, s, t := a[..i], a[i + 1..], b[i + 1..];
    assert a == (p + [a[i]]) + s && b == (p + [b[i]]) + t;
    assert (p + [a[i]])[..i] == p && (p + [b[i]])[..i] == p;
    assert Value(p + [a[i]]) == Value(p) * 256 + a[i] && Value(p + [b[i]]) == Value(p) * 256 + b[i];
    hide Value, Pow256;
    ValueAppend(p + [a[i]], s);
    ValueAppend(p + [b[i]], t);
    ValueBounds(s);
    Larger(Value(p) * 256 + a[i], Value(p) * 256 + b[i], Pow256(|s|));
  }

  lemma Larger(x: nat, y: nat, m: nat)
    requires x < y
    ensures x * m + m <= y * m
  {
    assert y * m == x * m + (y - x) * m;
    assert (y - x) * m == (y - x - 1) * m + m;
  }

  /** `compare_ipv6_address`: the numeric order. */
  method CompareAddresses(a: array<Octet>, b: array<Octet>) returns (order: int)
    requires a.Length == 16 && b.Length == 16
    ensures order == if Value(a[..]) > Value(b[..]) then 1 else if Value(a[..]) < Value(b[..]) then -1 else 0
    ensures order == 0 <==> a[..] == b[..]
  {
    var i := 0;
    while i < 16
      invariant 0 <= i <= 16 && a[..i] == b[..i]
    {
      if a[i] > b[i] {
        FirstDifference(b[..], a[..], i);
        return 1;
      } else if a[i] < b[i] {
        FirstDifference(a[..], b[..], i);
        return -1;
      }
      i := i + 1;
    }
    assert a[..] == a[..16] && b[..] == b[..16];
    return 0;
  }

  /** Addresses of the same number are the same address. */
  lemma {:induction false} ValueInjective(a: seq<Octet>, b: seq<Octet>)
    requires |a| == |b| && Value(a) == Value(b)
    ensures a == b
  {
    if a != [] {
      var n := |a| - 1;
      assert Value(a) == Value(a[..n]) * 256 + a[n] && Value(b) == Value(b[..n]) * 256 + b[n];
      ValueInjective(a[..n], b[..n]);
      assert a == a[..n] + [a[n]] && b == b[..n] + [b[n]];
    }
  }

  /** The bytes of a number. */
  function Octets(n: nat, k: nat): (b: seq<Octet>)
    ensures |b| == k
  {
    if k == 0 then [] else Octets(n / 256, k - 1) + [n % 256]
  }

  lemma {:induction false} OctetsValue(n: nat, k: nat)
    requires n < Pow256(k)
    ensures Value(Octets(n, k)) == n
  {
    if k > 0 {
      OctetsValue(n / 256, k - 1);
      assert Octets(n, k)[..k - 1] == Octets(n / 256, k - 1);
    }
  }

  // --- Text ----------------------------------------------------------------------

  /** `%04x`. */
  function Hex4Text(g: nat): (t: string)
    requires g < 0x1_0000
    ensures |t| == 4
  {
    [JsonText.HexDigit(g / 0x1000), JsonText.HexDigit(g / 0x100 % 0x10), JsonText.HexDigit(g / 0x10 % 0x10), JsonText.HexDigit(g % 0x10)]
  }

  type Segment = n: nat | n < 0x1_0000

  function Joined(gs: seq<Segment>): string
    requires gs != []
  {
    if |gs| == 1 then Hex4Text(gs[0]) else Hex4Text(gs[0]) + ":" + Joined(gs[1..])
  }

  function Pair(high: nat, low: nat): (g: Segment)
    requires high < 256 && low < 256
  {
    high * 256 + low
  }

  lemma PairParts(high: nat, low: nat)
    requires high < 256 && low < 256
    ensures Pair(high, low) / 256 == high && Pair(high, low) % 256 == low
  {
  }

  /** The 16-bit segments of an address. */
  function Segments(b: seq<Octet>): (gs: seq<Segment>)
    requires |b| % 2 == 0
    ensures |b| == 2 * |gs| && forall i :: 0 <= i < |gs| ==> gs[i] == Pair(b[2 * i], b[2 * i + 1])
  {
    if b == [] then [] else [Pair(b[0], b[1])] + Segments(b[2..])
  }

  /** The text of an address, every segment with four digits. */
  function Format(b: seq<Octet>): string
    requires |b| == 16
  {
    Joined(Segments(b))
  }

  // --- Reading the text back ---------------------------------------------------------

  /** How many hexadecimal digits a string begins with. */
  function HexRun(s: string): (k: nat)
    ensures k <= |s|
    ensures forall i :: 0 <= i < k ==> ParseText.HexValue(s[i]).Some?
    ensures k < |s| ==> ParseText.HexValue(s[k]).None?
  {
    if s == [] || ParseText.HexValue(s[0]).None? then 0 else 1 + HexRun(s[1..])
  }

  function HexNumber(s: string): nat
    requires forall i :: 0 <= i < |s| ==> ParseText.HexValue(s[i]).Some?
  {
    if s == [] then 0 else HexNumber(s[..|s| - 1]) * 16 + ParseText.HexValue(s[|s| - 1]).value
  }

  /** `sscanf` with `n` fields `%x` between colons; what follows the last is ignored. */
  function Scan(s: string, n: nat): Option<seq<nat>>
    requires n > 0
  {
    var k := HexRun(s);
    if k == 0 then None
    else if n == 1 then Some([HexNumber(s[..k])])
    else if k == |s| || s[k] != ':' then None
    else
      match Scan(s[k + 1..], n - 1)
      case None => None
      case Some(rest) => Some([HexNumber(s[..k])] + rest)
  }

  /** A node identifier: 32, 16 and 16 bits and eight bytes. */
  datatype Guid = Guid(data1: nat, data2: nat, data3: nat, data4: seq<nat>)

  /** The bytes of segments, the high one of each first. */
  function SegmentOctets(gs: seq<Segment>): (b: seq<Octet>)
    ensures |b| == 2 * |gs|
  {
    seq(2 * |gs|, i requires 0 <= i < 2 * |gs| => if i % 2 == 0 then gs[i / 2] / 256 else gs[i / 2] % 256)
  }

  function Pair32(high: Segment, low: Segment): nat
  {
    high * 0x1_0000 + low
  }

  /** `ipv6ToGuidChecked`. */
  function ToGuid(s: string): Option<Guid>
  {
    match Scan(s, 8)
    case None => None
    case Some(g) =>
      if |g| != 8 || exists i :: 0 <= i < 8 && g[i] > 0xFFFF then None
      else Some(Guid(Pair32(g[0], g[1]), g[2], g[3], SegmentOctets(g[4..])))
  }

  /** The identifier that consists of the bytes of an address. */
  function GuidOfBytes(b: seq<Octet>): Guid
    requires |b| == 16
  {
    Guid(Pair32(Pair(b[0], b[1]), Pair(b[2], b[3])), Pair(b[4], b[5]), Pair(b[6], b[7]), b[8..])
  }

  lemma {:induction false} HexRunIs(s: string, k: nat)
    requires k <= |s| && (forall i :: 0 <= i < k ==> ParseText.HexValue(s[i]).Some?) && (k < |s| ==> ParseText.HexValue(s[k]).None?)
    ensures HexRun(s) == k
  {
    if k > 0 {
      HexRunIs(s[1..], k - 1);
    }
  }

  lemma DigitValue(d: nat)
    requires d < 16
    ensures ParseText.HexValue(JsonText.HexDigit(d)) == Some(d)
  {
  }

  /** The four digits of a segment. */
  lemma Nibbles(g: nat)
    requires g < 0x1_0000
    ensures g / 0x1000 < 16
    ensures g == ((g / 0x1000 * 16 + g / 0x100 % 0x10) * 16 + g / 0x10 % 0x10) * 16 + g % 0x10
  {
    var a := g / 0x10;
    var b := a / 0x10;
    assert b == g / 0x100 && b / 0x10 == g / 0x1000;
    assert g == a * 16 + g % 0x10 && a == b * 16 + a % 0x10 && b == b / 0x10 * 16 + b % 0x10;
  }

  /** The number that four digits stand for. */
  lemma HexFour(t: string, d0: nat, d1: nat, d2: nat, d3: nat)
    requires |t| == 4 && ParseText.HexValue(t[0]) == Some(d0) && ParseText.HexValue(t[1]) == Some(d1)
    requires ParseText.HexValue(t[2]) == Some(d2) && ParseText.HexValue(t[3]) == Some(d3)
    ensures forall i :: 0 <= i < 4 ==> ParseText.HexValue(t[i]).Some?
    ensures HexNumber(t) == ((d0 * 16 + d1) * 16 + d2) * 16 + d3
  {
    hide ParseText.HexValue;
    var three, two, one := t[..3], t[..2], t[..1];
    assert three[..2] == two && two[..1] == one && one[..0] == [];
    assert HexNumber([]) == 0;
    assert HexNumber(one) == d0;
    assert HexNumber(two) == d0 * 16 + d1;
    assert HexNumber(three) == (d0 * 16 + d1) * 16 + d2;
  }

  lemma SegmentRoundTrip(g: Segment)
    ensures forall i :: 0 <= i < 4 ==> ParseText.HexValue(Hex4Text(g)[i]).Some?
    ensures HexNumber(Hex4Text(g)) == g
  {
    Nibbles(g);
    DigitValue(g / 0x1000);
    DigitValue(g / 0x100 % 0x10);
    DigitValue(g / 0x10 % 0x10);
    DigitValue(g % 0x10);
    hide JsonText.HexDigit, ParseText.HexValue, HexNumber;
    HexFour(Hex4Text(g), g / 0x1000, g / 0x100 % 0x10, g / 0x10 % 0x10, g % 0x10);
  }

  lemma ScanField(t: string, rest: string, n: nat)
    requires n > 0 && t != [] && forall i :: 0 <= i < |t| ==> ParseText.HexValue(t[i]).Some?
    ensures n == 1 ==> Scan(t, n) == Some([HexNumber(t)])
    ensures n > 1 ==> Scan(t + (":" + rest), n)
                      == match Scan(rest, n - 1) case None => None case Some(more) => Some([HexNumber(t)] + more)
  {
    hide HexNumber;
    HexRunIs(t, |t|);
    assert t[..|t|] == t;
    var s := t + (":" + rest);
    assert s[..|t|] == t && s[|t|] == ':' && s[|t| + 1..] == rest;
    HexRunIs(s, |t|);
  }

  lemma {:induction false} JoinedRoundTrip(gs: seq<Segment>)
    requires gs != []
    ensures Scan(Joined(gs), |gs|) == Some(gs)
    decreases |gs|
  {
    hide Hex4Text, HexNumber, ParseText.HexValue, Scan;
    var t := Hex4Text(gs[0]);
    SegmentRoundTrip(gs[0]);
    if |gs| == 1 {
      ScanField(t, "", 1);
      assert gs == [gs[0]];
    } else {
      JoinedRoundTrip(gs[1..]);
      ScanField(t, Joined(gs[1..]), |gs|);
      assert Joined(gs) == t + (":" + Joined(gs[1..]));
      assert gs == [gs[0]] + gs[1..];
    }
  }

  lemma SegmentsBack(b: seq<Octet>)
    requires |b| % 2 == 0
    ensures SegmentOctets(Segments(b)) == b
  {
    hide Pair, Segments, SegmentOctets;
    var gs := Segments(b);
    forall i | 0 <= i < |b| ensures SegmentOctets(gs)[i] == b[i] {
      var k := i / 2;
      assert gs[k] == Pair(b[2 * k], b[2 * k + 1]);
      PairParts(b[2 * k], b[2 * k + 1]);
      OctetsOf(gs, k);
      assert i == 2 * k || i == 2 * k + 1;
    }
  }

  lemma OctetsOf(gs: seq<Segment>, k: nat)
    requires k < |gs|
    ensures SegmentOctets(gs)[2 * k] == gs[k] / 256 && SegmentOctets(gs)[2 * k + 1] == gs[k] % 256
  {
  }

  /** Every byte is two hexadecimal digits in lower case; a colon stands behind every second byte but the last. */
  lemma {:induction false} JoinedLayout(gs: seq<Segment>, i: nat)
    requires i < |gs|
    ensures |Joined(gs)| == 5 * |gs| - 1
    ensures i + 1 < |gs| ==> Joined(gs)[5 * i + 4] == ':'
    ensures Joined(gs)[5 * i..5 * i + 4] == Hex4Text(gs[i])
    decreases |gs|
  {
    hide Hex4Text;
    var t := Joined(gs);
    if |gs| > 1 {
      var rest := Joined(gs[1..]);
      JoinedLayout(gs[1..], if i > 0 then i - 1 else 0);
      assert t == Hex4Text(gs[0]) + ":" + rest;
      if i > 0 {
        assert t[5 * i..5 * i + 4] == rest[5 * (i - 1)..5 * (i - 1) + 4];
      }
    }
  }

  const DIGITS: string := "0123456789abcdef"

  lemma ByteNibbles(high: nat, low: nat)
    requires high < 256 && low < 256
    ensures var g := high * 256 + low;
      g / 0x1000 == high / 16 && g / 0x100 % 0x10 == high % 16 && g / 0x10 % 0x10 == low / 16 && g % 0x10 == low % 16
  {
    var g := high * 256 + low;
    assert g / 0x100 == high && g / 0x10 == high * 16 + low / 16;
    assert g / 0x1000 == g / 0x100 / 0x10;
  }

  lemma FormatLayout(b: seq<Octet>, i: nat)
    requires |b| == 16 && i < 8
    ensures var t := Format(b);
      && |t| == 39 && (i < 7 ==> t[5 * i + 4] == ':')
      && t[5 * i..5 * i + 4]
         == [DIGITS[b[2 * i] / 16], DIGITS[b[2 * i] % 16], DIGITS[b[2 * i + 1] / 16], DIGITS[b[2 * i + 1] % 16]]
  {
    hide Segments, Joined, JsonText.HexDigit;
    var high, low, gs := b[2 * i], b[2 * i + 1], Segments(b);
    JoinedLayout(gs, i);
    ByteNibbles(high, low);
    JsonText.DigitIs(high / 16);
    JsonText.DigitIs(high % 16);
    JsonText.DigitIs(low / 16);
    JsonText.DigitIs(low % 16);
    assert gs[i] == Pair(high, low);
  }

  lemma GuidBytes(b: seq<Octet>)
    requires |b| == 16
    ensures var o: seq<nat> := b;
      GuidOfBytes(b)
        == Guid(o[0] * 0x100_0000 + o[1] * 0x1_0000 + o[2] * 0x100 + o[3], o[4] * 0x100 + o[5], o[6] * 0x100 + o[7], o[8..])
  {
  }

  /**
   The identifier made from the text of an address consists of the bytes of the
   address, in network order.
   */
  lemma GuidRoundTrip(b: seq<Octet>)
    requires |b| == 16
    ensures ToGuid(Format(b)) == Some(GuidOfBytes(b))
    ensures var o: seq<nat> := b;
      GuidOfBytes(b)
        == Guid(o[0] * 0x100_0000 + o[1] * 0x1_0000 + o[2] * 0x100 + o[3], o[4] * 0x100 + o[5], o[6] * 0x100 + o[7], o[8..])
  {
    GuidBytes(b);
    hide ToGuid, Joined, Pair, Pair32, Segments, SegmentOctets;
    var gs := Segments(b);
    JoinedGuid(gs);
    SegmentsBack(b[8..]);
    assert gs[4..] == Segments(b[8..]);
    assert gs[0] == Pair(b[2 * 0], b[2 * 0 + 1]) && gs[1] == Pair(b[2 * 1], b[2 * 1 + 1]);
    assert gs[2] == Pair(b[2 * 2], b[2 * 2 + 1]) && gs[3] == Pair(b[2 * 3], b[2 * 3 + 1]);
  }

  lemma JoinedGuid(gs: seq<Segment>)
    requires |gs| == 8
    ensures ToGuid(Joined(gs)) == Some(Guid(Pair32(gs[0], gs[1]), gs[2], gs[3], SegmentOctets(gs[4..])))
  {
    hide Scan, Joined, Pair32, SegmentOctets;
    JoinedRoundTrip(gs);
    assert forall i :: 0 <= i < 8 ==> gs[i] <= 0xFFFF;
  }

  lemma PairInjective(a: Octet, b: Octet, c: Octet, d: Octet)
    requires Pair(a, b) == Pair(c, d)
    ensures a == c && b == d
  {
  }

  /** Different addresses have different texts and different node identifiers. */
  lemma AddressesDiffer(a: seq<Octet>, b: seq<Octet>)
    requires |a| == |b| == 16 && a != b
    ensures Format(a) != Format(b) && GuidOfBytes(a) != GuidOfBytes(b)
  {
    hide ToGuid, Format, GuidOfBytes;
    GuidRoundTrip(a);
    GuidRoundTrip(b);
    GuidInjective(a, b);
  }

  lemma GuidInjective(a: seq<Octet>, b: seq<Octet>)
    requires |a| == |b| == 16
    ensures GuidOfBytes(a) == GuidOfBytes(b) ==> a == b
  {
    hide Pair, Pair32;
    if GuidOfBytes(a) == GuidOfBytes(b) {
      Halves(Pair(a[0], a[1]), Pair(a[2], a[3]), Pair(b[0], b[1]), Pair(b[2], b[3]));
      PairInjective(a[0], a[1], b[0], b[1]);
      PairInjective(a[2], a[3], b[2], b[3]);
      PairInjective(a[4], a[5], b[4], b[5]);
      PairInjective(a[6], a[7], b[6], b[7]);
      assert a[..8] == b[..8];
      assert a == a[..8] + a[8..] && b == b[..8] + b[8..];
    }
  }

  lemma Halves(a: Segment, b: Segment, c: Segment, d: Segment)
    requires Pair32(a, b) == Pair32(c, d)
    ensures a == c && b == d
  {
  }

  // --- Numbers as addresses --------------------------------------------------------------

  /** The bytes of an address. */
  const WIDTH: nat := 16

  /** The text of the address with a given number. */
  function TextOf(n: nat): string
  {
    Format(Octets(n, WIDTH))
  }

  /** The number of an address that is written in full. */
  function NumberOf(s: string): Option<nat>
  {
    match Scan(s, 8)
    case None => None
    case Some(g) =>
      if |g| != 8 || exists i :: 0 <= i < 8 && g[i] > 0xFFFF then None else Some(Value(SegmentOctets(g)))
  }

  /** Numbers below 2 to the power of 128 and texts of addresses correspond. */
  lemma TextRoundTrip(n: nat)
    requires n < ADDRESSES
    ensures NumberOf(TextOf(n)) == Some(n)
  {
    var b := Octets(n, WIDTH);
    Pow256Sixteen();
    OctetsValue(n, WIDTH);
    JoinedRoundTrip(Segments(b));
    SegmentsBack(b);
    hide Scan, Joined, Octets, Value, SegmentOctets;
  }

  lemma TextInjective(m: nat, n: nat)
    requires m < ADDRESSES && n < ADDRESSES && m != n
    ensures TextOf(m) != TextOf(n)
  {
    hide TextOf, NumberOf;
    TextRoundTrip(m);
    TextRoundTrip(n);
  }
}
