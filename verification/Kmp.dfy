/** Case-insensitive substring search of the SEARCH command, in linear time
    (Knuth-Morris-Pratt). */
module Kmp {
  import opened Common

  /** The needle occurs at offset `p`, ignoring ASCII case. */
  ghost predicate MatchAt(hay: string, needle: string, p: int) {
    0 <= p && p + |needle| <= |hay| && forall k :: 0 <= k < |needle| ==> Lower(hay[p + k]) == Lower(needle[k])
  }

  /** The first `q` bytes of `s` are the last `q` of the first `n` bytes of `h`. */
  ghost predicate Ends(s: string, h: string, n: int, q: int) {
    && 0 <= q <= |s| && q <= n <= |h|
    && forall k :: 0 <= k < q ==> s[k] == h[n - q + k]
  }

  /** A border of the prefix of length `n`: a proper prefix that is also a suffix. */
  ghost predicate Border(s: string, n: int, q: int) {
    q < n && Ends(s, s, n, q)
  }

  /** No prefix of `s` shorter than `lim` but longer than `q` ends at `n`. */
  ghost predicate NoLonger(s: string, h: string, n: int, lim: int, q: int) {
    forall b :: Ends(s, h, n, b) && b < lim ==> b <= q
  }

  ghost predicate LongestBorder(s: string, n: int, q: int) {
    Border(s, n, q) && NoLonger(s, s, n, n, q)
  }

  /** Of two suffixes that are prefixes of the needle, the shorter is a border of the longer. */
  lemma ShorterIsBorder(s: string, h: string, n: int, q: int, b: int)
    requires Ends(s, h, n, q) && Ends(s, h, n, b) && b < q
    ensures Border(s, q, b)
  {
    forall k | 0 <= k < b ensures s[k] == s[q - b + k] {
      assert s[q - b + k] == h[n - q + (q - b + k)];
    }
  }

  /** A border of a matched prefix is again matched. */
  lemma BorderEnds(s: string, h: string, n: int, q: int, b: int)
    requires Ends(s, h, n, q) && Border(s, q, b)
    ensures Ends(s, h, n, b)
  {
    forall k | 0 <= k < b ensures s[k] == h[n - b + k] {
      assert s[q - b + k] == h[n - q + (q - b + k)];
    }
  }

  /** Matching one more byte. */
  lemma EndsExtend(s: string, h: string, n: int, q: int)
    requires 0 <= n < |h| && 0 <= q < |s|
    ensures Ends(s, h, n + 1, q + 1) <==> Ends(s, h, n, q) && s[q] == h[n]
  {
    if Ends(s, h, n + 1, q + 1) {
      assert s[q] == h[n + 1 - (q + 1) + q];
      assert forall k :: 0 <= k < q ==> s[k] == h[n + 1 - (q + 1) + k];
    }
  }

  /** One more byte lengthens the longest match by at most one. */
  lemma OneMore(s: string, h: string, n: int, lim: int, q: int)
    requires 0 <= n < |h| && lim <= |s| && q >= 0 && NoLonger(s, h, n, lim, q)
    ensures NoLonger(s, h, n + 1, lim + 1, q + 1)
  {
    var m := n + 1;
    forall b | Ends(s, h, m, b) && b < lim + 1 ensures b <= q + 1 {
      if b > 0 { EndsExtend(s, h, n, b - 1); }
    }
  }

  /** One fall-back: when the byte after the matched prefix differs, no longer
      match than through the longest border is possible. */
  lemma FallBack(s: string, h: string, n: int, lim: int, q: int, f: int)
    requires 0 <= n < |h| && 0 < q < |s|
    requires Ends(s, h, n, q) && s[q] != h[n] && LongestBorder(s, q, f)
    requires NoLonger(s, h, n + 1, lim, q + 1)
    ensures Ends(s, h, n, f) && NoLonger(s, h, n + 1, lim, f + 1)
  {
    BorderEnds(s, h, n, q, f);
    var m := n + 1;
    forall b | Ends(s, h, m, b) && b < lim ensures b <= f + 1 {
      if b > 0 {
        EndsExtend(s, h, n, b - 1);
        if b - 1 < q { ShorterIsBorder(s, h, n, q, b - 1); }
      }
    }
  }

  /** The fall-back loop over byte `c`, which is byte `n` of `h`: shared by the
      construction of the table and by the search. */
  method FallTo(needle: string, fail: array<nat>, c: char, start: nat, ghost h: string, ghost n: int, ghost lim: int)
    returns (q: nat)
    requires start < |needle| == fail.Length && 0 <= n < |h| && h[n] == c
    requires forall j :: 0 <= j < start ==> LongestBorder(Fold(needle), j + 1, fail[j])
    requires Ends(Fold(needle), h, n, start) && NoLonger(Fold(needle), h, n + 1, lim, start + 1)
    ensures q <= start && Ends(Fold(needle), h, n, q) && NoLonger(Fold(needle), h, n + 1, lim, q + 1)
    ensures q == 0 || c == Lower(needle[q])
  {
    q := start;
    while q > 0 && c != Lower(needle[q])
      invariant q <= start && Ends(Fold(needle), h, n, q) && NoLonger(Fold(needle), h, n + 1, lim, q + 1)
    {
      assert LongestBorder(Fold(needle), q - 1 + 1, fail[q - 1]);
      FallBack(Fold(needle), h, n, lim, q, fail[q - 1]);
      q := fail[q - 1];
    }
  }

  /** The byte after the fall-back decides the longest match at `n + 1`. */
  lemma AfterFall(s: string, h: string, n: int, lim: int, q: int)
    requires 0 <= n < |h| && 0 <= q < |s|
    requires Ends(s, h, n, q) && NoLonger(s, h, n + 1, lim, q + 1) && (q == 0 || h[n] == s[q])
    ensures h[n] == s[q] ==> Ends(s, h, n + 1, q + 1)
    ensures h[n] != s[q] ==> Ends(s, h, n + 1, q) && NoLonger(s, h, n + 1, lim, q)
  {
    EndsExtend(s, h, n, q);
    if h[n] != s[q] {
      var m := n + 1;
      forall b | Ends(s, h, m, b) && b < lim ensures b <= 0 {
        if b > 0 { EndsExtend(s, h, n, b - 1); }
      }
    }
  }

  /** The failure table holds, at every index, the longest proper border of the
      prefix that ends there. */
  ghost predicate FailureTable(s: string, fail: seq<nat>, n: nat) {
    n <= |s| == |fail| && forall i :: 0 <= i < n ==> LongestBorder(s, i + 1, fail[i])
  }

  lemma SingleByte(s: string, fail: seq<nat>)
    requires |s| == |fail| > 0 && fail[0] == 0
    ensures FailureTable(s, fail, 1)
  {
  }

  /** The entry of index `i` after the fall-back. */
  lemma TableGrows(s: string, fail: seq<nat>, i: nat, q: nat)
    requires FailureTable(s, fail, i) && i < |s|
    requires Ends(s, s, i + 1, q) && q < i + 1 && NoLonger(s, s, i + 1, i + 1, q)
    ensures FailureTable(s, fail[i := q], i + 1)
  {
  }

  method BuildFail(needle: string) returns (fail: array<nat>)
    requires needle != ""
    ensures fresh(fail) && FailureTable(Fold(needle), fail[..], |needle|)
  {
    hide Ends, NoLonger, Fold;
    ghost var s := Fold(needle);
    var n := |needle|;
    fail := new nat[n];
    fail[0] := 0;
    SingleByte(s, fail[..]);
    for i := 1 to n
      invariant FailureTable(s, fail[..], i)
    {
      ghost var table := fail[..];
      assert LongestBorder(s, i - 1 + 1, table[i - 1]);
      assert forall j :: 0 <= j < i ==> LongestBorder(s, j + 1, table[j]);
      OneMore(s, s, i, i, fail[i - 1]);
      var q := FallTo(needle, fail, Lower(needle[i]), fail[i - 1], s, i, i + 1);
      AfterFall(s, s, i, i + 1, q);
      if Lower(needle[i]) == Lower(needle[q]) {
        q := q + 1;
      }
      TableGrows(s, table, i, q);
      fail[i] := q;
      assert fail[..] == table[i := q];
    }
  }

  /** A match of the needle ends at `n` exactly when the whole folded needle is a suffix there. */
  lemma MatchEnds(hay: string, needle: string, n: int)
    requires 0 <= n <= |hay|
    ensures MatchAt(hay, needle, n - |needle|) <==> Ends(Fold(needle), Fold(hay), n, |needle|)
  {
    var s, h, p := Fold(needle), Fold(hay), n - |needle|;
    if Ends(s, h, n, |needle|) {
      forall k | 0 <= k < |needle| ensures Lower(hay[p + k]) == Lower(needle[k]) {
        assert s[k] == h[n - |needle| + k];
      }
    }
  }

  lemma NothingRead(s: string, h: string, n: int)
    requires s != ""
    ensures Ends(s, h, 0, 0) && NoLonger(s, h, 0, n, 0)
  {
  }

  /** When the longest match is not the whole needle, no occurrence ends here. */
  lemma NotWhole(hay: string, needle: string, n: int, q: int)
    requires 0 <= n <= |hay| && q < |needle|
    requires NoLonger(Fold(needle), Fold(hay), n, |needle| + 1, q)
    ensures !MatchAt(hay, needle, n - |needle|)
    ensures NoLonger(Fold(needle), Fold(hay), n, |needle|, q)
  {
    MatchEnds(hay, needle, n);
  }

  /** The search loop, for a nonempty needle that fits. */
  method Search(hay: string, needle: string) returns (r: Option<nat>)
    requires 0 < |needle| <= |hay|
    ensures r.None? ==> forall p :: 0 <= p <= |hay| - |needle| ==> !MatchAt(hay, needle, p)
    ensures r.Some? ==> MatchAt(hay, needle, r.value) && forall p :: 0 <= p < r.value ==> !MatchAt(hay, needle, p)
  {
    hide Ends, NoLonger, Fold, MatchAt;
    var fail := BuildFail(needle);
    ghost var s, h, table := Fold(needle), Fold(hay), fail[..];
    var n := |needle|;
    var q: nat := 0;
    NothingRead(s, h, n);
    BeforeFirst(hay, needle);
    for i := 0 to |hay|
      invariant q < n && fail[..] == table
      invariant Ends(s, h, i, q) && NoLonger(s, h, i, n, q)
      invariant forall p :: p <= i - n ==> !MatchAt(hay, needle, p)
    {
      assert forall j :: 0 <= j < n ==> LongestBorder(s, j + 1, table[j]);
      OneMore(s, h, i, n, q);
      q := FallTo(needle, fail, Lower(hay[i]), q, h, i, n + 1);
      AfterFall(s, h, i, n + 1, q);
      if Lower(hay[i]) == Lower(needle[q]) {
        q := q + 1;
      }
      if q == n {
        MatchEnds(hay, needle, i + 1);
        OccurrenceAtStart(hay, needle, i + 1 - n);
        return Some(i + 1 - n);
      }
      NotWhole(hay, needle, i + 1, q);
    }
    r := None;
  }

  lemma BeforeFirst(hay: string, needle: string)
    ensures forall p :: p <= 0 - |needle| && needle != "" ==> !MatchAt(hay, needle, p)
  {
  }

  lemma OccurrenceAtStart(hay: string, needle: string, p: int)
    requires MatchAt(hay, needle, p)
    ensures p >= 0
  {
  }

  /** ci_strstr: absence exactly when no occurrence exists, otherwise the leftmost one. */
  method CiStrstr(hay: string, needle: string) returns (r: Option<nat>)
    ensures r.None? <==> forall p :: !MatchAt(hay, needle, p)
    ensures r.Some? ==> MatchAt(hay, needle, r.value) && forall p :: 0 <= p < r.value ==> !MatchAt(hay, needle, p)
  {
    if needle == "" {
      assert MatchAt(hay, needle, 0);
      return Some(0);
    }
    if |hay| < |needle| { return None; }
    r := Search(hay, needle);
  }
}
