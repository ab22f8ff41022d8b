/**
 * Specification of the sync-marker search: what it means for a byte sequence to end with
 * the marker, for a prefix of the marker to be a suffix of the bytes seen so far, and for a
 * table to be the Knuth-Morris-Pratt failure function of the marker. The Seeker and the
 * boundary scanner are proved against these definitions.
 */
module MarkerSpec {

  /** `s` ends with `t`. */
  ghost predicate EndsWith(s: seq<bv8>, t: seq<bv8>) {
    |t| <= |s| && s[|s| - |t|..] == t
  }

  /** The first `m` bytes of the pattern `p` are a suffix of `s`. */
  ghost predicate Suffixed(s: seq<bv8>, p: seq<bv8>, m: nat) {
    m <= |p| && EndsWith(s, p[..m])
  }

  /** The pattern does not occur anywhere in `s`: no prefix of `s` ends with it. */
  ghost predicate NoOccurrence(p: seq<bv8>, s: seq<bv8>) {
    forall n {:trigger EndsWith(s[..n], p)} :: |p| <= n <= |s| ==> !EndsWith(s[..n], p)
  }

  /**
   * The first occurrence of `p` in `s` ends right before offset `k`: `s[..k]` ends with `p`
   * and no shorter prefix of `s` contains it.
   */
  ghost predicate FirstEndsAt(p: seq<bv8>, s: seq<bv8>, k: int) {
    0 < |p| <= k <= |s| && EndsWith(s[..k], p) && NoOccurrence(p, s[..k - 1])
  }

  /**
   * Reference search, independent of any automaton: the length of the shortest prefix of `s`
   * that ends with `p`, or -1 when `p` does not occur in `s`.
   */
  function FirstEnd(p: seq<bv8>, s: seq<bv8>): (k: int)
    requires |p| > 0
    ensures k == -1 <==> NoOccurrence(p, s)
    ensures k != -1 ==> FirstEndsAt(p, s, k)
    decreases |s|
  {
    if |s| < |p| then -1
    else
      var shorter := s[..|s| - 1];
      var k := FirstEnd(p, shorter);
      if k != -1 then
        FirstEndsAtLonger(p, s, |s| - 1, k);
        k
      else if s[|s| - |p|..] == p then
        NoOccurrenceThenFirst(p, s);
        |s|
      else
        NoOccurrenceSnoc(p, s);
        -1
  }

  /** If all but the last byte of `s` do not contain `p` and `s` does not end with it, `s` does not contain it. */
  lemma NoOccurrenceSnoc(p: seq<bv8>, s: seq<bv8>)
    requires 0 < |p| <= |s| && s[|s| - |p|..] != p
    requires NoOccurrence(p, s[..|s| - 1])
    ensures NoOccurrence(p, s)
  {
    forall n | |p| <= n <= |s|
      ensures !EndsWith(s[..n], p)
    {
      if n < |s| {
        assert s[..n] == s[..|s| - 1][..n];
      } else {
        assert s[..n] == s;
      }
    }
  }

  /** A first occurrence in a prefix of `s` is the first occurrence in `s`. */
  lemma FirstEndsAtLonger(p: seq<bv8>, s: seq<bv8>, m: nat, k: int)
    requires m <= |s| && FirstEndsAt(p, s[..m], k)
    ensures FirstEndsAt(p, s, k)
  {
    assert s[..m][..k] == s[..k] && s[..m][..k - 1] == s[..k - 1];
  }

  /** When `s` ends with `p` and all but its last byte do not contain `p`, `s` is the first occurrence. */
  lemma NoOccurrenceThenFirst(p: seq<bv8>, s: seq<bv8>)
    requires 0 < |p| <= |s| && s[|s| - |p|..] == p
    requires NoOccurrence(p, s[..|s| - 1])
    ensures FirstEndsAt(p, s, |s|) && !NoOccurrence(p, s)
  {
    assert s[..|s|] == s;
  }

  /** There is only one first occurrence. */
  lemma FirstEndsAtUnique(p: seq<bv8>, s: seq<bv8>, k: int, k': int)
    requires FirstEndsAt(p, s, k) && FirstEndsAt(p, s, k')
    ensures k == k'
  {
    if k < k' {
      NoEarlierEnd(p, s, k, k');
    } else if k' < k {
      NoEarlierEnd(p, s, k', k);
    }
  }

  /** No prefix of `s` shorter than the first occurrence ends with `p`. */
  lemma NoEarlierEnd(p: seq<bv8>, s: seq<bv8>, n: int, k: int)
    requires FirstEndsAt(p, s, k) && |p| <= n < k
    ensures !EndsWith(s[..n], p)
  {
    assert s[..k - 1][..n] == s[..n];
  }

  /**
   * `k` is the length of the longest prefix of `p`, shorter than `p`, that is a suffix of `s`,
   * and no longer prefix (the whole of `p` included) is.
   */
  ghost predicate IsLongestMatch(p: seq<bv8>, s: seq<bv8>, k: nat) {
    k < |p| && Suffixed(s, p, k) &&
    forall m :: k < m <= |p| ==> !Suffixed(s, p, m)
  }

  /** `b` is the longest proper border of `p[..len]`: a prefix of `p` shorter than `len` that ends `p[..len]`. */
  ghost predicate IsLongestBorder(p: seq<bv8>, len: nat, b: nat) {
    b < len <= |p| && Suffixed(p[..len], p, b) &&
    forall b' :: b < b' < len ==> !Suffixed(p[..len], p, b')
  }

  /** `f` is a prefix of the failure function of `p`: `f[i]` is the longest proper border of `p[..i + 1]`. */
  ghost predicate IsBorderTable(p: seq<bv8>, f: seq<nat>) {
    |f| <= |p| && forall i :: 0 <= i < |f| ==> IsLongestBorder(p, i + 1, f[i])
  }

  /** `f` is the whole failure function of `p`. */
  ghost predicate IsFailureTable(p: seq<bv8>, f: seq<nat>) {
    |f| == |p| && IsBorderTable(p, f)
  }

  /** The border table grows by the longest border of the next prefix. */
  lemma BorderTableSnoc(p: seq<bv8>, f: seq<nat>, b: nat)
    requires IsBorderTable(p, f) && IsLongestBorder(p, |f| + 1, b)
    ensures IsBorderTable(p, f + [b])
  {
    forall i | 0 <= i < |f| + 1
      ensures IsLongestBorder(p, i + 1, (f + [b])[i])
    {
      if i < |f| {
        assert (f + [b])[i] == f[i];
      }
    }
  }

  /**
   * No prefix of `p` longer than `j` and shorter than `lim` is a suffix of `s` and is
   * continued by `c` in `p`: falling back below `j` loses no candidate match.
   */
  ghost predicate NoExtensionAbove(p: seq<bv8>, s: seq<bv8>, c: bv8, j: nat, lim: nat) {
    lim <= |p| && forall m :: j < m < lim && Suffixed(s, p, m) ==> p[m] != c
  }

  /** Two prefixes of `p` that both end `s`: the shorter one also ends the longer one. */
  lemma SuffixOfSuffix(s: seq<bv8>, p: seq<bv8>, m: nat, j: nat)
    requires m <= j
    requires Suffixed(s, p, j) && Suffixed(s, p, m)
    ensures Suffixed(p[..j], p, m)
  {
    var t := p[..j];
    assert t[j - m..] == s[|s| - m..] by {
      forall k | j - m <= k < j
        ensures t[k] == s[|s| - j + k]
      {
        assert t[k] == s[|s| - j..][k];
      }
    }
    assert p[..j][..m] == p[..m];
  }

  /** A prefix ending `p[..j]`, which in turn ends `s`, also ends `s`. */
  lemma SuffixTransitive(s: seq<bv8>, p: seq<bv8>, m: nat, j: nat)
    requires m <= j
    requires Suffixed(s, p, j) && Suffixed(p[..j], p, m)
    ensures Suffixed(s, p, m)
  {
    assert p[..j][..m] == p[..m];
    assert s[|s| - m..] == p[..m] by {
      forall k | 0 <= k < m
        ensures s[|s| - m + k] == p[..m][k]
      {
        assert s[|s| - m + k] == s[|s| - j..][j - m + k];
        assert p[..j][j - m..][k] == p[..m][k];
      }
    }
  }

  /** A matched prefix followed by the next pattern byte is a one-longer matched prefix. */
  lemma Extend(s: seq<bv8>, p: seq<bv8>, c: bv8, j: nat)
    requires j < |p| && p[j] == c && Suffixed(s, p, j)
    ensures Suffixed(s + [c], p, j + 1)
  {
    assert (s + [c])[|s| + 1 - (j + 1)..] == s[|s| - j..] + [c];
    assert p[..j + 1] == p[..j] + [c];
  }

  /** A non-empty matched prefix of `s + [c]` is a matched prefix of `s` followed by `c`. */
  lemma Shrink(s: seq<bv8>, p: seq<bv8>, c: bv8, m: nat)
    requires 0 < m && Suffixed(s + [c], p, m)
    ensures Suffixed(s, p, m - 1) && p[m - 1] == c
  {
    var t := s + [c];
    assert t[|t| - m..] == p[..m];
    assert p[m - 1] == p[..m][m - 1] == t[|t| - 1] == c;
    assert s[|s| - (m - 1)..] == t[|t| - m..][..m - 1];
    assert p[..m][..m - 1] == p[..m - 1];
  }

  /**
   * One fallback of the KMP automaton. With `j` a matched prefix whose next pattern byte is not
   * `c`, `f[j - 1]` is again a matched prefix, and no candidate between it and `lim` is lost.
   */
  lemma FallbackStep(p: seq<bv8>, f: seq<nat>, s: seq<bv8>, c: bv8, j: nat, lim: nat)
    requires 0 < j < lim <= |p|
    requires j <= |f| && IsLongestBorder(p, j, f[j - 1])
    requires Suffixed(s, p, j) && p[j] != c
    requires NoExtensionAbove(p, s, c, j, lim)
    ensures f[j - 1] < j
    ensures Suffixed(s, p, f[j - 1])
    ensures NoExtensionAbove(p, s, c, f[j - 1], lim)
  {
    var b := f[j - 1];
    SuffixTransitive(s, p, b, j);
    forall m | b < m < lim && Suffixed(s, p, m)
      ensures p[m] != c
    {
      if m < j {
        SuffixOfSuffix(s, p, m, j);
        assert false;
      }
    }
  }

  /**
   * The end of one automaton step. Once the fallback stops at `j` (at 0, or where `p[j]` is `c`),
   * the new state is the longest prefix of `p`, at most `lim` long, that ends `s + [c]`.
   */
  lemma StepLongest(p: seq<bv8>, s: seq<bv8>, c: bv8, j: nat, lim: nat)
    requires j < lim <= |p|
    requires Suffixed(s, p, j)
    requires NoExtensionAbove(p, s, c, j, lim)
    requires j == 0 || p[j] == c
    ensures var n := if p[j] == c then j + 1 else 0;
      Suffixed(s + [c], p, n) &&
      forall b :: n < b <= lim ==> !Suffixed(s + [c], p, b)
  {
    var n := if p[j] == c then j + 1 else 0;
    if p[j] == c {
      Extend(s, p, c, j);
    } else {
      assert (s + [c])[|s| + 1..] == [] == p[..0];
    }
    forall b | n < b <= lim
      ensures !Suffixed(s + [c], p, b)
    {
      if Suffixed(s + [c], p, b) {
        Shrink(s, p, c, b);
        assert false;
      }
    }
  }

  /** Appending a byte after which the pattern is still not completed keeps it absent. */
  lemma NoOccurrenceExtend(p: seq<bv8>, s: seq<bv8>, c: bv8)
    requires NoOccurrence(p, s)
    requires !Suffixed(s + [c], p, |p|)
    ensures NoOccurrence(p, s + [c])
  {
    var t := s + [c];
    forall n | |p| <= n <= |t|
      ensures !EndsWith(t[..n], p)
    {
      if n <= |s| {
        assert t[..n] == s[..n];
      } else {
        assert t[..n] == t;
        assert p[..|p|] == p;
      }
    }
  }

  /** Nothing examined yet: no prefix of the pattern is matched and the pattern is absent. */
  lemma EmptyStart(p: seq<bv8>)
    requires |p| > 0
    ensures IsLongestMatch(p, [], 0) && NoOccurrence(p, [])
  {
    assert p[..0] == [];
  }

  /**
   * The pattern, absent from `before + data[..i]`, is completed by `data[i]`: its first occurrence
   * in `before + data` ends right after that byte.
   */
  lemma CompletedAt(p: seq<bv8>, before: seq<bv8>, data: seq<bv8>, i: nat)
    requires 0 < |p| && i < |data|
    requires NoOccurrence(p, before + data[..i])
    requires Suffixed(before + data[..i] + [data[i]], p, |p|)
    ensures FirstEndsAt(p, before + data, |before| + i + 1)
  {
    var examined := before + data;
    var k := |before| + i + 1;
    assert examined[..k] == before + data[..i] + [data[i]];
    assert examined[..k - 1] == before + data[..i];
    assert p[..|p|] == p;
  }

  /**
   * A scan that stops either at the end of the first occurrence of `p` in `s` or, finding none,
   * at the end of `s`, stops at `k` when the first occurrence ends at `k`.
   */
  lemma ScannedTo(p: seq<bv8>, s: seq<bv8>, k: int, stop: int)
    requires FirstEndsAt(p, s, k)
    requires FirstEndsAt(p, s, stop) || (stop == |s| && NoOccurrence(p, s))
    ensures stop == k
  {
    assert s[..k][|s[..k]| - |p|..] == p;
    assert !NoOccurrence(p, s);
    FirstEndsAtUnique(p, s, k, stop);
  }

  /** `FirstEnd` finds the first occurrence wherever `FirstEndsAt` places it. */
  lemma FirstEndIs(p: seq<bv8>, s: seq<bv8>, k: int)
    requires FirstEndsAt(p, s, k)
    ensures FirstEnd(p, s) == k
  {
    ScannedTo(p, s, k, FirstEnd(p, s));
  }

  /** A pattern byte that `s` never contains rules out every occurrence of the pattern in `s`. */
  lemma AbsentByte(p: seq<bv8>, s: seq<bv8>, j: nat)
    requires j < |p| && forall i :: 0 <= i < |s| ==> s[i] != p[j]
    ensures NoOccurrence(p, s)
  {
    forall n | |p| <= n <= |s|
      ensures !EndsWith(s[..n], p)
    {
      assert s[..n][n - |p|..][j] == s[n - |p| + j];
    }
  }

  /**
   * `p` ends at offset `k` of `s`, and a byte of `p` is missing from everything before the last
   * byte of that occurrence: this is the first occurrence.
   */
  lemma FirstEndsAtByAbsence(p: seq<bv8>, s: seq<bv8>, k: nat, j: nat)
    requires 0 < |p| <= k <= |s| && forall i :: 0 <= i < |p| ==> s[k - |p| + i] == p[i]
    requires j < |p| && forall i :: 0 <= i < k - 1 ==> s[i] != p[j]
    ensures FirstEndsAt(p, s, k)
  {
    AbsentByte(p, s[..k - 1], j);
    assert s[..k][k - |p|..] == p;
  }

  /**
   * A search that stops at the end of the first occurrence of `p` in `s`, or at the end of `s`
   * when there is none, agrees with a prediction `k` of that occurrence (-1 for none).
   */
  lemma Reported(p: seq<bv8>, s: seq<bv8>, k: int, stop: int)
    requires if k == -1 then NoOccurrence(p, s) else FirstEndsAt(p, s, k)
    requires FirstEndsAt(p, s, stop) || (stop == |s| && NoOccurrence(p, s))
    ensures k == -1 ==> !FirstEndsAt(p, s, stop)
    ensures k != -1 ==> stop == k
  {
    if k == -1 {
      if 0 < |p| <= stop <= |s| {
        assert !EndsWith(s[..stop], p);
      }
    } else {
      ScannedTo(p, s, k, stop);
    }
  }
}
