/**
 `decode_pointer_inplace`, which the patch code applies to the last token of a
 path. It moves the decoding position but copies no ordinary characters, so it
 undoes escaping only for some names; this module says exactly which.
 */
module InPlace {
  import opened Bytes
  import opened Pointer

  /** What the loop leaves in the buffer, from decoding position `d` and reading position `s` on. */
  function DecodeRun(b: seq<Byte>, d: nat, s: nat): (r: seq<Byte>)
    requires d <= s < |b| && b[|b| - 1] == '\0'
    ensures |r| == |b|
    decreases |b| - s
  {
    if b[s] == '\0' then b[d := '\0']
    else if b[s] != '~' then DecodeRun(b, d + 1, s + 1)
    else if b[s + 1] == '0' then DecodeRun(b[d := '~'], d + 1, s + 2)
    else if b[s + 1] == '1' then DecodeRun(b[d + 1 := '/'], d + 1, s + 2)
    else b
  }

  /** The decoded string. */
  function DecodeInPlace(s: CString): CString
  {
    StringIn(DecodeRun(s + ['\0'], 0, 0))
  }

  method DecodePointerInPlace(buffer: array<Byte>)
    requires buffer.Length > 0 && buffer[buffer.Length - 1] == '\0'
    modifies buffer
    ensures buffer[..] == DecodeRun(old(buffer[..]), 0, 0)
  {
    var d, s := 0, 0;
    while buffer[s] != '\0'
      invariant 0 <= d <= s < buffer.Length
      invariant buffer[buffer.Length - 1] == '\0'
      invariant DecodeRun(buffer[..], d, s) == DecodeRun(old(buffer[..]), 0, 0)
      decreases buffer.Length - s
    {
      ghost var b: seq<Byte> := buffer[..];
      if buffer[s] == '~' {
        if buffer[s + 1] == '0' {
          buffer[d] := '~';
          assert buffer[..] == b[d := '~'];
        } else if buffer[s + 1] == '1' {
          buffer[d + 1] := '/';
          assert buffer[..] == b[d + 1 := '/'];
        } else {
          return;
        }
        s := s + 1;
      }
      d, s := d + 1, s + 1;
    }
    ghost var b: seq<Byte> := buffer[..];
    buffer[d] := '\0';
    assert buffer[..] == b[d := '\0'];
  }

  /** The character the loop leaves at position `j` when it decodes the token of `k`. */
  function Left(k: CString, j: nat): CChar
    requires j < |k|
  {
    EncodeLonger(k);
    if k[j] == '~' then '~' else if j > 0 && k[j - 1] == '/' then '/' else Encode(k)[j]
  }

  lemma {:induction false} EncodeLonger(k: CString)
    ensures |Encode(k)| >= |k|
    ensures '/' in k ==> |Encode(k)| > |k|
  {
    if k != [] {
      EncodeLonger(k[1..]);
    }
  }

  /** The state of the loop after `i` characters of `k`. */
  ghost predicate Reached(k: CString, i: nat, b: seq<Byte>)
    requires i <= |k|
  {
    EncodeLonger(k);
    && |b| == |Encode(k)| + 1
    && (forall j :: 0 <= j < i ==> b[j] == Left(k, j))
    && (forall j :: i <= j < |Encode(k)| ==>
          b[j] == if j == i && i > 0 && k[i - 1] == '/' then '/' else Encode(k)[j])
    && b[|Encode(k)|] == '\0'
  }

  lemma EncodeAt(k: CString, i: nat)
    requires i < |k|
    ensures var s := |Encode(k[..i])|;
      s + |EncodeChar(k[i])| == |Encode(k[..i + 1])| <= |Encode(k)|
      && Encode(k)[s..s + |EncodeChar(k[i])|] == EncodeChar(k[i])
    ensures i > 0 && k[i - 1] == '/' ==> |Encode(k[..i])| > i
    ensures |Encode(k[..i])| >= i
  {
    EncodeLonger(k[..i]);
    assert i > 0 ==> k[..i][i - 1] == k[i - 1];
    EncodeAppend(k[..i], [k[i]]);
    assert k[..i + 1] == k[..i] + [k[i]];
    assert Encode([k[i]]) == EncodeChar(k[i]);
    EncodeAppend(k[..i + 1], k[i + 1..]);
    assert k == k[..i + 1] + k[i + 1..];
  }

  ghost predicate Finished(k: CString, r: seq<Byte>)
  {
    && |r| > |k|
    && (forall j :: 0 <= j < |k| ==> r[j] == Left(k, j))
    && r[|k|] == '\0'
  }

  /** One round of the loop on the token of `k`. */
  lemma RoundOnToken(k: CString, i: nat, b: seq<Byte>)
    requires i < |k| && Reached(k, i, b)
    ensures var s, n := |Encode(k[..i])|, |Encode(k[..i + 1])|;
      i <= s < n < |b| && i + 1 <= n && b[s] != '\0'
      && (if k[i] == '~' then
            n == s + 2 && b[s] == '~' && b[s + 1] == '0' && Reached(k, i + 1, b[i := '~'])
          else if k[i] == '/' then
            n == s + 2 && b[s] == '~' && b[s + 1] == '1' && Reached(k, i + 1, b[i + 1 := '/'])
          else
            n == s + 1 && b[s] != '~' && Reached(k, i + 1, b))
  {
    hide Encode;
    var s, e := |Encode(k[..i])|, Encode(k);
    EncodeLonger(k);
    EncodeLonger(k[..i + 1]);
    EncodeAt(k, i);
    assert e[s..s + |EncodeChar(k[i])|][0] == e[s];
    if |EncodeChar(k[i])| == 2 {
      assert e[s..s + 2][1] == e[s + 1];
    }
  }

  lemma {:induction false} RunEncoded(k: CString, i: nat, b: seq<Byte>)
    requires i <= |k| && Reached(k, i, b)
    requires i <= |Encode(k[..i])| < |b| && b[|b| - 1] == '\0'
    ensures Finished(k, DecodeRun(b, i, |Encode(k[..i])|))
    decreases |k| - i
  {
    if i == |k| {
      assert k[..i] == k;
    } else {
      RoundOnToken(k, i, b);
      hide Reached, Finished, Left, Encode;
      if k[i] == '~' {
        RunEncoded(k, i + 1, b[i := '~']);
      } else if k[i] == '/' {
        RunEncoded(k, i + 1, b[i + 1 := '/']);
      } else {
        RunEncoded(k, i + 1, b);
      }
    }
  }

  /** The decoded token, character by character. */
  lemma DecodedToken(k: CString)
    ensures |DecodeInPlace(Encode(k))| == |k|
    ensures forall j :: 0 <= j < |k| ==> DecodeInPlace(Encode(k))[j] == Left(k, j)
  {
    var b: seq<Byte> := Encode(k) + ['\0'];
    assert k[..0] == [];
    EncodeLonger(k);
    RunEncoded(k, 0, b);
    UpToIs(DecodeRun(b, 0, 0), '\0', |k|);
  }

  /**
   The names whose tokens decode correctly: no `/`, and every character but `~`
   stands where the token has that same character.
   */
  predicate Decodable(k: CString)
  {
    EncodeLonger(k);
    '/' !in k && forall j :: 0 <= j < |k| ==> k[j] == '~' || Encode(k)[j] == k[j]
  }

  /** Decoding in place undoes escaping for exactly those names. */
  lemma DecodesIff(k: CString)
    ensures DecodeInPlace(Encode(k)) == k <==> Decodable(k)
  {
    DecodedToken(k);
    EncodeLonger(k);
    var r := DecodeInPlace(Encode(k));
    if '/' in k {
      SlashSpoils(k);
    } else {
      forall j | 0 <= j < |k| ensures r[j] == k[j] <==> k[j] == '~' || Encode(k)[j] == k[j] {
        assert r[j] == Left(k, j);
        assert j > 0 ==> k[j - 1] in k;
      }
      assert (forall j :: 0 <= j < |k| ==> r[j] == k[j]) <==> r == k;
    }
  }

  /** The first `/` of a name is never restored. */
  lemma SlashSpoils(k: CString)
    requires '/' in k
    ensures DecodeInPlace(Encode(k)) != k
  {
    var q := UpTo(k, '/');
    DecodedToken(k);
    EncodeLonger(k);
    EncodeNoSlash(k);
    assert Encode(k)[q] in Encode(k);
    assert DecodeInPlace(Encode(k))[q] == Left(k, q);
  }

  /** In particular names without `~` and `/`. */
  lemma {:induction false} EscapeFree(k: CString)
    requires '/' !in k && '~' !in k
    ensures Encode(k) == k && Decodable(k)
  {
    if k != [] {
      assert k[0] in k && forall c :: c in k[1..] ==> c in k;
      EscapeFree(k[1..]);
      assert k == [k[0]] + k[1..];
    }
  }

  /** A name that does not come back: the token of `~a` decodes to `~0`. */
  lemma TildeThenLetter()
    ensures Encode("~a") == "~0a" && DecodeInPlace("~0a") == "~0" && !Decodable("~a")
  {
    assert "~a"[1..] == "a" && "a"[1..] == [];
    DecodedToken("~a");
    assert DecodeInPlace(Encode("~a")) == [Left("~a", 0), Left("~a", 1)];
  }
}
