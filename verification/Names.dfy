/**
 What becomes of a name that is escaped and then decoded in place. Names that are
 not restored never form a cycle: of any names not all of which are restored, one
 is not what any of them becomes, not even up to case.
 */
module Names {
  import opened Bytes
  import opened Json
  import opened Pointer
  import opened InPlace

  // --- What names become ---------------------------------------------------------

  /** The name an operation really addresses when it means `k`. */
  function Back(k: CString): CString
  {
    DecodeInPlace(Encode(k))
  }

  lemma BackAt(k: CString, j: nat)
    requires j < |k|
    ensures |Back(k)| == |k| && Back(k)[j] == Left(k, j)
  {
    DecodedToken(k);
  }

  lemma LeftFold(k: CString, j: nat)
    requires j < |k|
    ensures Left(Fold(k), j) == ToLower(Left(k, j))
  {
    EncodeFold(k, false);
    EncodeLonger(k);
    EncodeLonger(Fold(k));
    assert Fold(k)[j] == ToLower(k[j]) && (j > 0 ==> Fold(k)[j - 1] == ToLower(k[j - 1]));
    assert Encode(Fold(k))[j] == ToLower(Encode(k)[j]);
    hide Encode;
  }

  /** Case does not matter to what becomes of a name. */
  lemma BackFold(k: CString)
    ensures Back(Fold(k)) == Fold(Back(k))
  {
    DecodedToken(k);
    DecodedToken(Fold(k));
    hide Encode, DecodeInPlace, Left;
    forall j | 0 <= j < |k| ensures Back(Fold(k))[j] == Fold(Back(k))[j] {
      LeftFold(k, j);
    }
  }

  /** Prefixes encode to prefixes. */
  lemma EncodePrefix(k: CString, n: nat)
    requires n <= |k|
    ensures |Encode(k[..n])| <= |Encode(k)| && Encode(k)[..|Encode(k[..n])|] == Encode(k[..n])
  {
    assert k == k[..n] + k[n..];
    EncodeAppend(k[..n], k[n..]);
  }

  /** Behind a `~`, what the buffer has at a position depends only on the name before it. */
  lemma SamePrefix(k: CString, l: CString, n: nat)
    requires n < |k| == |l| && k[..n] == l[..n] && |Encode(k[..n])| > n
    ensures |Encode(k)| > n && |Encode(l)| > n && Encode(k)[n] == Encode(l)[n]
  {
    hide Encode;
    EncodePrefix(k, n);
    EncodePrefix(l, n);
    assert Encode(k)[n] == Encode(k)[..|Encode(k[..n])|][n];
    assert Encode(l)[n] == Encode(l)[..|Encode(l[..n])|][n];
  }

  lemma {:induction false} PlainPrefix(k: CString)
    requires '/' !in k && '~' !in k
    ensures Encode(k) == k
  {
    EscapeFree(k);
  }

  /** The length of what a name and its outcome have in common at the beginning. */
  function Stable(k: CString, l: CString): (n: nat)
    ensures n <= |k| && n <= |l| && k[..n] == l[..n]
    ensures n < |k| && n < |l| ==> k[n] != l[n]
  {
    if k == [] || l == [] || k[0] != l[0] then 0
    else
      var n := 1 + Stable(k[1..], l[1..]);
      assert k[..n] == [k[0]] + k[1..][..n - 1] && l[..n] == [l[0]] + l[1..][..n - 1];
      n
  }

  lemma {:induction false} StableAtLeast(k: CString, l: CString, n: nat)
    requires n <= |k| && n <= |l| && k[..n] == l[..n]
    ensures Stable(k, l) >= n
  {
    if n > 0 {
      assert k[..n][0] == l[..n][0];
      assert k[1..][..n - 1] == k[..n][1..] && l[1..][..n - 1] == l[..n][1..];
      StableAtLeast(k[1..], l[1..], n - 1);
    }
  }

  lemma {:induction false} StableAtMost(k: CString, l: CString, q: nat)
    requires q < |k| && q < |l| && k[q] != l[q]
    ensures Stable(k, l) <= q
  {
    if q > 0 {
      StableAtMost(k[1..], l[1..], q - 1);
    }
  }

  lemma StableWithin(k: CString, l: CString)
    requires |k| == |l| && k != l
    ensures Stable(k, l) < |k|
  {
    assert k[..|k|] == k && l[..|l|] == l;
  }

  /** Before the first byte that changes there is no `/`. */
  lemma NoSlashBefore(k: CString)
    requires Back(k) != k
    ensures var n := Stable(k, Back(k)); n < |k| && '/' !in k[..n]
  {
    assert |Back(k)| == |k| by { DecodedToken(k); }
    hide Back;
    StableWithin(k, Back(k));
    if '/' in k {
      var q := UpTo(k, '/');
      assert q < |k|;
      SlashBecomes(k, q);
      StableAtMost(k, Back(k), q);
    }
  }

  /** The first `/` becomes something else. */
  lemma SlashBecomes(k: CString, q: nat)
    requires q < |k| && k[q] == '/' && '/' !in k[..q]
    ensures |Back(k)| == |k| && Back(k)[q] != '/'
  {
    BackAt(k, q);
    EncodeNoSlash(k);
    EncodeLonger(k);
    assert q > 0 ==> k[..q][q - 1] == k[q - 1];
    assert Encode(k)[q] in Encode(k);
  }

  /** The first byte that changes changes only once. */
  lemma SettlesAt(k: CString)
    requires Back(k) != k
    ensures var n := Stable(k, Back(k)); n < |k| == |Back(k)| == |Back(Back(k))| && Back(Back(k))[n] == Back(k)[n]
  {
    var n, l := Stable(k, Back(k)), Back(k);
    NoSlashBefore(k);
    BackAt(k, n);
    BackAt(l, n);
    EncodeLonger(k);
    EncodeLonger(l);
    assert n > 0 ==> k[..n][n - 1] == k[n - 1] && l[..n][n - 1] == l[n - 1];
    if '~' in k[..n] {
      TildeLengthens(k[..n]);
      SamePrefix(k, l, n);
    } else {
      PlainPrefix(k[..n]);
      FirstEscape(k, n);
    }
  }

  lemma {:induction false} TildeLengthens(k: CString)
    requires '~' in k
    ensures |Encode(k)| > |k|
  {
    if k[0] == '~' {
      EncodeLonger(k[1..]);
    } else {
      TildeLengthens(k[1..]);
    }
  }

  /** The first byte to be escaped. */
  lemma FirstEscape(k: CString, n: nat)
    requires n < |k| && Encode(k[..n]) == k[..n]
    ensures |Encode(k)| > n && Encode(k)[n] == EncodeChar(k[n])[0]
  {
    EncodeAt(k, n);
    assert Encode(k)[n..n + |EncodeChar(k[n])|][0] == Encode(k)[n];
  }

  /** Names that are not restored come closer to names that are. */
  lemma StableGrows(k: CString)
    requires Back(k) != k
    ensures Stable(Back(k), Back(Back(k))) > Stable(k, Back(k))
  {
    var n, l := Stable(k, Back(k)), Back(k);
    SettlesAt(k);
    hide Back;
    PrefixStays(k, n);
    assert l[..n + 1] == l[..n] + [l[n]];
    assert Back(l)[..n + 1] == Back(l)[..n] + [Back(l)[n]];
    StableAtLeast(l, Back(l), n + 1);
  }

  /** What is restored at the beginning of a name is restored again. */
  lemma PrefixStays(k: CString, n: nat)
    requires n <= |k| == |Back(k)| == |Back(Back(k))| && k[..n] == Back(k)[..n]
    ensures Back(Back(k))[..n] == Back(k)[..n]
  {
    var l := Back(k);
    forall j | 0 <= j < n ensures Back(l)[j] == l[j] {
      assert k[..n][j] == l[..n][j] && (j > 0 ==> k[..n][j - 1] == l[..n][j - 1]);
      BackAt(k, j);
      BackAt(l, j);
      assert k[..j] == k[..n][..j] && l[..j] == l[..n][..j];
      SameAt(k, l, j);
    }
  }

  /** Names that agree up to and with a position become the same there. */
  lemma SameAt(k: CString, l: CString, j: nat)
    requires j < |k| == |l| && k[..j] == l[..j] && k[j] == l[j]
    ensures Left(k, j) == Left(l, j)
  {
    EncodeLonger(k);
    EncodeLonger(l);
    assert k[..j + 1] == k[..j] + [k[j]] && l[..j + 1] == l[..j] + [l[j]];
    assert j > 0 ==> k[..j][j - 1] == k[j - 1] && l[..j][j - 1] == l[j - 1];
    EncodeLonger(k[..j + 1]);
    hide Encode;
    EncodePrefix(k, j + 1);
    EncodePrefix(l, j + 1);
    assert Encode(k)[j] == Encode(k)[..|Encode(k[..j + 1])|][j];
    assert Encode(l)[j] == Encode(l)[..|Encode(l[..j + 1])|][j];
  }

  // --- Names up to case ------------------------------------------------------------

  /** Behind its first `~` a restored name has nothing but `~` and `0`. */
  predicate ZeroOrTilde(c: CChar)
  {
    c == '~' || c == '0'
  }

  lemma {:induction false} EncodeZeros(s: CString)
    requires forall i :: 0 <= i < |s| ==> ZeroOrTilde(s[i])
    ensures forall i :: 0 <= i < |Encode(s)| ==> ZeroOrTilde(Encode(s)[i])
  {
    if s != [] {
      EncodeZeros(s[1..]);
    }
  }

  lemma {:induction false} RestoredTail(k: CString, p: nat, j: nat)
    requires Back(k) == k && '/' !in k
    requires p <= j < |k| && k[p] == '~' && '~' !in k[..p]
    ensures ZeroOrTilde(k[j])
    decreases j
  {
    if k[j] != '~' {
      BackAt(k, j);
      EncodeLonger(k);
      assert k[j - 1] in k;
      var head, tail := k[..p], k[p..j];
      forall i | 0 <= i < |tail| ensures ZeroOrTilde(tail[i]) {
        RestoredTail(k, p, p + i);
      }
      EncodeZeros(tail);
      PlainPrefix(head);
      assert k[..j] == head + tail && tail[0] == '~';
      EncodeAppend(head, tail);
      TildeLengthens(tail);
      EncodePrefix(k, j);
      hide Encode;
      assert Encode(k)[j] == Encode(k)[..|Encode(k[..j])|][j];
      assert Encode(k[..j])[j] == Encode(tail)[j - p];
    }
  }

  /** A name is restored if its lower-case form is. */
  lemma RestoredByFold(k: CString)
    requires Back(Fold(k)) == Fold(k)
    ensures Back(k) == k
  {
    var f := Fold(k);
    BackFold(k);
    FoldHas(k, '/');
    FoldHas(k, '~');
    DecodedToken(k);
    RestoredNoSlash(f);
    forall j | 0 <= j < |k| ensures Back(k)[j] == k[j] {
      assert Fold(Back(k))[j] == ToLower(Back(k)[j]) && f[j] == ToLower(k[j]);
      if '~' in k[..j + 1] {
        var p := UpTo(k, '~');
        RestoredTail(f, p, j);
      } else {
        BackAt(k, j);
        PlainPrefix(k[..j + 1]);
        EncodeLonger(k);
        EncodePrefix(k, j + 1);
        assert k[..j + 1][j] == k[j] && (j > 0 ==> k[j - 1] in k);
        assert Encode(k)[j] == Encode(k)[..j + 1][j];
      }
    }
  }

  lemma FoldHas(k: CString, c: CChar)
    requires c == '/' || c == '~'
    ensures c in Fold(k) <==> c in k
    ensures forall j :: 0 <= j < |k| ==> (Fold(k)[j] == c <==> k[j] == c)
  {
    assert forall j :: 0 <= j < |k| ==> Fold(k)[j] == ToLower(k[j]);
    if c in k {
      var j :| 0 <= j < |k| && k[j] == c;
      assert Fold(k)[j] == c;
    }
  }

  lemma RestoredNoSlash(k: CString)
    requires Back(k) == k
    ensures '/' !in k
  {
    if '/' in k {
      SlashSpoils(k);
    }
  }

  /** The operation for `k` may touch a member called `r`. */
  predicate Hits(k: CString, r: CString)
  {
    Fold(Back(k)) == Fold(r)
  }

  /** Of names not all of which are restored there is one that no operation touches. */
  lemma {:induction false} MissedName(names: seq<CString>, k: CString) returns (r: CString)
    requires k in names && Back(k) != k
    ensures r in names && forall l | l in names :: !Hits(l, r)
    decreases Stable(Fold(k), Back(Fold(k)))
  {
    hide Back;
    if l :| l in names && Hits(l, k) {
      BackFold(l);
      if Back(l) == l {
        RestoredFold(l);
        RestoredByFold(k);
      }
      if Back(Fold(l)) == Fold(l) {
        RestoredByFold(l);
      }
      StableGrows(Fold(l));
      assert Back(Fold(l)) == Fold(k);
      r := MissedName(names, l);
    } else {
      r := k;
    }
  }

  lemma RestoredFold(l: CString)
    requires Back(l) == l
    ensures Back(Fold(l)) == Fold(l)
  {
    BackFold(l);
  }
}
