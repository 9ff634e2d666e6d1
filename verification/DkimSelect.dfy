/** Which header each h= entry is bound to.  The signer lists the signable
    headers top-down; the verifier binds every entry to the last header of that
    name it has not used yet. */
module DkimSelect {
  import opened Common

  function Count(s: seq<string>, x: string): nat {
    if s == [] then 0 else (if s[0] == x then 1 else 0) + Count(s[1..], x)
  }

  lemma {:induction false} CountJoin(a: seq<string>, b: seq<string>, x: string)
    ensures Count(a + b, x) == Count(a, x) + Count(b, x)
  {
    if a == [] {
      assert a + b == b;
    } else {
      CountJoin(a[1..], b, x);
      assert (a + b)[1..] == a[1..] + b;
    }
  }

  lemma CountFirst(x: string, rest: seq<string>)
    ensures Count([x] + rest, x) == 1 + Count(rest, x)
  {
    assert ([x] + rest)[1..] == rest;
  }

  /** Equal names below entry `k`. */
  function Below(hn: seq<string>, k: nat): nat
    requires k < |hn|
  {
    Count(hn[k + 1..], hn[k])
  }

  /** Equal names above entry `i`. */
  function Above(hn: seq<string>, i: nat): nat
    requires i < |hn|
  {
    Count(hn[..i], hn[i])
  }

  /** Entry `k` is as far from the last header of its name as `i` is from the first. */
  predicate Mirrors(hn: seq<string>, i: nat, k: nat) {
    i < |hn| && k < |hn| && hn[k] == hn[i] && Below(hn, k) == Above(hn, i)
  }

  lemma BelowDecreases(hn: seq<string>, k: nat, l: nat)
    requires k < l < |hn| && hn[k] == hn[l]
    ensures Below(hn, k) > Below(hn, l)
  {
    assert hn[k + 1..] == hn[k + 1..l] + ([hn[l]] + hn[l + 1..]);
    CountJoin(hn[k + 1..l], [hn[l]] + hn[l + 1..], hn[k]);
    assert ([hn[l]] + hn[l + 1..])[1..] == hn[l + 1..];
  }

  /** The entry of a name with a given number of equal names below it. */
  lemma {:induction false} EntryWithBelow(hn: seq<string>, x: string, c: nat) returns (k: nat)
    requires c < Count(hn, x)
    ensures k < |hn| && hn[k] == x && Below(hn, k) == c
  {
    var rest := hn[1..];
    if hn[0] == x && c == Count(rest, x) {
      k := 0;
    } else {
      k := EntryWithBelow(rest, x, c);
      assert rest[k + 1..] == hn[k + 2..];
      k := k + 1;
    }
  }

  // ---------------------------------------------------------------------
  // The verifier's selection
  // ---------------------------------------------------------------------

  /** Last header below `hi` with that name and not used, or -1. */
  function LastFree(ns: seq<string>, used: set<nat>, x: string, hi: nat): (r: int)
    requires hi <= |ns|
    ensures -1 <= r < hi
    ensures r >= 0 ==> ns[r] == x && r !in used
    ensures forall j :: r < j < hi && ns[j] == x ==> j in used
  {
    if hi == 0 then -1
    else if ns[hi - 1] == x && hi - 1 !in used then hi - 1
    else LastFree(ns, used, x, hi - 1)
  }

  /** The headers bound to the entries from `i` on, in entry order; an entry
      without a header is dropped. */
  function Bind(ns: seq<string>, used: set<nat>, hn: seq<string>, i: nat): (r: seq<nat>)
    requires i <= |hn|
    ensures forall j :: 0 <= j < |r| ==> r[j] < |ns|
    decreases |hn| - i
  {
    if i == |hn| then []
    else
      var k := LastFree(ns, used, hn[i], |ns|);
      if k < 0 then Bind(ns, used, hn, i + 1) else [k] + Bind(ns, used + {k}, hn, i + 1)
  }

  /** The loop of dkim_verify_core, with consumed marks on the header array. */
  method BindLoop(ns: seq<string>, hn: seq<string>) returns (r: seq<nat>)
    ensures r == Bind(ns, {}, hn, 0)
  {
    hide LastFree, Bind;
    var consumed := new bool[|ns|](_ => false);
    ghost var used: set<nat> := {};
    r := [];
    BoundFirst(ns, hn);
    for i := 0 to |hn|
      invariant forall j: nat :: j < |ns| ==> (consumed[j] <==> j in used)
      invariant BoundSoFar(r, ns, used, hn, i)
    {
      BoundNext(r, ns, used, hn, i);
      var hi := FindUnused(ns, consumed, hn[i], used);
      if hi < |ns| {
        r := r + [hi];
        consumed[hi] := true;
        used := used + {hi};
      }
    }
    BoundLast(r, ns, used, hn);
  }

  /** The inner loop: the last unused header of a name, or the number of headers. */
  method FindUnused(ns: seq<string>, consumed: array<bool>, x: string, ghost used: set<nat>) returns (hi: nat)
    requires consumed.Length == |ns| && forall j: nat :: j < |ns| ==> (consumed[j] <==> j in used)
    ensures LastFree(ns, used, x, |ns|) == if hi < |ns| then hi else -1
    ensures hi <= |ns|
  {
    hi := |ns|;
    while hi > 0
      invariant hi <= |ns| && LastFree(ns, used, x, |ns|) == LastFree(ns, used, x, hi)
    {
      hi := hi - 1;
      if ns[hi] == x && !consumed[hi] { return; }
    }
    hi := |ns|;
  }

  /** Entries before `i` are bound to `r`. */
  ghost predicate BoundSoFar(r: seq<nat>, ns: seq<string>, used: set<nat>, hn: seq<string>, i: nat) {
    i <= |hn| && r + Bind(ns, used, hn, i) == Bind(ns, {}, hn, 0)
  }

  lemma BoundFirst(ns: seq<string>, hn: seq<string>)
    ensures BoundSoFar([], ns, {}, hn, 0)
  {
  }

  lemma BoundNext(r: seq<nat>, ns: seq<string>, used: set<nat>, hn: seq<string>, i: nat)
    requires i < |hn| && BoundSoFar(r, ns, used, hn, i)
    ensures var k := LastFree(ns, used, hn[i], |ns|);
            if k < 0 then BoundSoFar(r, ns, used, hn, i + 1) else BoundSoFar(r + [k], ns, used + {k}, hn, i + 1)
  {
    hide LastFree;
    var k := LastFree(ns, used, hn[i], |ns|);
    if k >= 0 {
      Assoc(r, [k], Bind(ns, used + {k}, hn, i + 1));
    }
  }

  lemma BoundLast(r: seq<nat>, ns: seq<string>, used: set<nat>, hn: seq<string>)
    requires BoundSoFar(r, ns, used, hn, |hn|)
    ensures r == Bind(ns, {}, hn, 0)
  {
    assert r + [] == r;
  }

  // ---------------------------------------------------------------------
  // Entries are bound to their mirror images
  // ---------------------------------------------------------------------

  ghost predicate Increasing(idx: seq<nat>) {
    forall i, j :: 0 <= i < j < |idx| ==> idx[i] < idx[j]
  }

  /** `idx` lists, in order, every header that carries the name of some entry. */
  ghost predicate Listed(ns: seq<string>, idx: seq<nat>, hn: seq<string>) {
    && |idx| == |hn| && Increasing(idx)
    && (forall i :: 0 <= i < |idx| ==> idx[i] < |ns| && ns[idx[i]] == hn[i])
    && (forall j, i :: 0 <= j < |ns| && 0 <= i < |hn| && ns[j] == hn[i] ==> j in idx)
  }

  /** What is used before entry `i` is bound: of each name, as many of the last
      headers as there were entries of it. */
  ghost predicate UsedBefore(idx: seq<nat>, hn: seq<string>, i: nat, used: set<nat>)
    requires |idx| == |hn| && i <= |hn|
  {
    forall k :: 0 <= k < |hn| ==> (idx[k] in used <==> Below(hn, k) < Count(hn[..i], hn[k]))
  }

  lemma BoundToMirror(ns: seq<string>, idx: seq<nat>, hn: seq<string>, i: nat, used: set<nat>)
    returns (k: nat)
    requires Listed(ns, idx, hn) && i < |hn| && UsedBefore(idx, hn, i, used)
    ensures Mirrors(hn, i, k) && LastFree(ns, used, hn[i], |ns|) == idx[k]
    ensures UsedBefore(idx, hn, i + 1, used + {idx[k]})
  {
    k := MirrorExists(hn, i);
    assert forall j :: 0 <= j < |ns| && ns[j] == hn[i] ==> j in idx;
    hide Count, LastFree, Below, Above;
    LastFreeIsMirror(ns, idx, hn, i, used, k);
    UsedAfter(idx, hn, i, k, used);
  }

  lemma MirrorExists(hn: seq<string>, i: nat) returns (k: nat)
    requires i < |hn|
    ensures Mirrors(hn, i, k)
  {
    var x := hn[i];
    assert hn == hn[..i] + ([x] + hn[i + 1..]);
    CountJoin(hn[..i], [x] + hn[i + 1..], x);
    CountFirst(x, hn[i + 1..]);
    k := EntryWithBelow(hn, x, Above(hn, i));
  }

  lemma LastFreeIsMirror(ns: seq<string>, idx: seq<nat>, hn: seq<string>, i: nat, used: set<nat>, k: nat)
    requires |idx| == |hn| && Increasing(idx) && i < |hn| && UsedBefore(idx, hn, i, used)
    requires forall l :: 0 <= l < |idx| ==> idx[l] < |ns| && ns[idx[l]] == hn[l]
    requires forall j :: 0 <= j < |ns| && ns[j] == hn[i] ==> j in idx
    requires Mirrors(hn, i, k)
    ensures LastFree(ns, used, hn[i], |ns|) == idx[k]
  {
    hide LastFree, Mirrors, UsedBefore, Increasing;
    MirrorIsFree(idx, hn, i, used, k);
    var r := LastFree(ns, used, hn[i], |ns|);
    assert r >= idx[k] && ns[r] == hn[i] && r in idx;
    var l :| 0 <= l < |idx| && idx[l] == r;
    if l != k {
      LaterIsUsed(idx, hn, i, used, k, l);
    }
  }

  lemma MirrorIsFree(idx: seq<nat>, hn: seq<string>, i: nat, used: set<nat>, k: nat)
    requires |idx| == |hn| && i < |hn| && UsedBefore(idx, hn, i, used) && Mirrors(hn, i, k)
    ensures k < |hn| && hn[k] == hn[i] && idx[k] !in used
  {
    hide Count, Below;
  }

  lemma LaterIsUsed(idx: seq<nat>, hn: seq<string>, i: nat, used: set<nat>, k: nat, l: nat)
    requires |idx| == |hn| && Increasing(idx) && i < |hn| && UsedBefore(idx, hn, i, used) && Mirrors(hn, i, k)
    requires l < |hn| && hn[l] == hn[i] && idx[l] >= idx[k] && l != k
    ensures idx[l] in used
  {
    hide Count, Below;
    assert k < l;
    BelowDecreases(hn, k, l);
  }

  lemma UsedAfter(idx: seq<nat>, hn: seq<string>, i: nat, k: nat, used: set<nat>)
    requires |idx| == |hn| && Increasing(idx) && Mirrors(hn, i, k) && UsedBefore(idx, hn, i, used)
    ensures UsedBefore(idx, hn, i + 1, used + {idx[k]})
  {
    forall m | 0 <= m < |hn|
      ensures idx[m] in used + {idx[k]} <==> Below(hn, m) < Count(hn[..i + 1], hn[m])
    {
      CountSoFar(hn, i, hn[m]);
      assert idx[m] == idx[k] <==> m == k;
      if hn[m] == hn[k] {
        if m < k { BelowDecreases(hn, m, k); }
        if k < m { BelowDecreases(hn, k, m); }
      }
    }
  }

  lemma CountSoFar(hn: seq<string>, i: nat, x: string)
    requires i < |hn|
    ensures Count(hn[..i + 1], x) == Count(hn[..i], x) + if hn[i] == x then 1 else 0
  {
    assert hn[..i + 1] == hn[..i] + [hn[i]];
    CountJoin(hn[..i], [hn[i]], x);
    assert [hn[i]][1..] == [];
  }

  /** Every entry is bound, and to its mirror image among the headers of its name. */
  lemma {:induction false} BindMirrors(ns: seq<string>, idx: seq<nat>, hn: seq<string>, i: nat, used: set<nat>, j: nat)
    returns (k: nat)
    requires Listed(ns, idx, hn) && i <= j < |hn| && UsedBefore(idx, hn, i, used)
    ensures |Bind(ns, used, hn, i)| == |hn| - i
    ensures k < |idx| && Mirrors(hn, j, k) && Bind(ns, used, hn, i)[j - i] == idx[k]
    decreases |hn| - i
  {
    assert |idx| == |hn|;
    hide Listed, UsedBefore, LastFree, Mirrors, Bind;
    var first := BoundToMirror(ns, idx, hn, i, used);
    MirrorBounds(hn, i, first);
    BindStep(ns, used, hn, i, idx[first]);
    if i + 1 == |hn| {
      BindNone(ns, used + {idx[first]}, hn);
      k := first;
    } else {
      var more := Bind(ns, used + {idx[first]}, hn, i + 1);
      if j > i {
        k := BindMirrors(ns, idx, hn, i + 1, used + {idx[first]}, j);
        assert ([idx[first]] + more)[j - i] == more[j - (i + 1)];
      } else {
        var _ := BindMirrors(ns, idx, hn, i + 1, used + {idx[first]}, i + 1);
        k := first;
      }
    }
  }

  lemma BindStep(ns: seq<string>, used: set<nat>, hn: seq<string>, i: nat, k: nat)
    requires i < |hn| && LastFree(ns, used, hn[i], |ns|) == k
    ensures Bind(ns, used, hn, i) == [k] + Bind(ns, used + {k}, hn, i + 1)
  {
  }

  lemma BindNone(ns: seq<string>, used: set<nat>, hn: seq<string>)
    ensures Bind(ns, used, hn, |hn|) == []
  {
  }

  lemma NothingUsed(idx: seq<nat>, hn: seq<string>)
    requires |idx| == |hn|
    ensures UsedBefore(idx, hn, 0, {})
  {
    assert hn[..0] == [];
  }

  /** With distinct names every entry is its own mirror image. */
  lemma DistinctMirrors(hn: seq<string>, i: nat, k: nat)
    requires Distinct(hn) && Mirrors(hn, i, k)
    ensures i == k
  {
  }

  lemma MirrorUnique(hn: seq<string>, i: nat, k: nat, l: nat)
    requires Mirrors(hn, i, k) && Mirrors(hn, i, l)
    ensures k == l
  {
    if k < l { BelowDecreases(hn, k, l); }
    if l < k { BelowDecreases(hn, l, k); }
  }

  /** Equally named headers have the same canonical forms top-down and bottom-up. */
  ghost predicate SameBothWays(names: seq<string>, canons: seq<string>)
    requires |names| == |canons|
  {
    forall i: nat, k: nat :: Mirrors(names, i, k) ==> canons[i] == canons[k]
  }

  /** The forms bound to the entries are those listed for them exactly when
      equally named headers read the same both ways. */
  lemma BoundFormsIff(forms: seq<string>, ns: seq<string>, idx: seq<nat>, hn: seq<string>, listed: seq<string>)
    requires Listed(ns, idx, hn) && |forms| == |ns| && |listed| == |hn|
    requires forall i :: 0 <= i < |hn| ==> listed[i] == forms[idx[i]]
    ensures |Bind(ns, {}, hn, 0)| == |hn|
    ensures (forall j :: 0 <= j < |hn| ==> forms[Bind(ns, {}, hn, 0)[j]] == listed[j]) <==> SameBothWays(hn, listed)
  {
    var bound := BoundLength(ns, idx, hn);
    assert |idx| == |hn| && forall i :: 0 <= i < |idx| ==> idx[i] < |ns|;
    hide Listed, Mirrors, Bind;
    if forall j :: 0 <= j < |hn| ==> forms[bound[j]] == listed[j] {
      forall i: nat, k: nat | Mirrors(hn, i, k) ensures listed[i] == listed[k] {
        MirrorBounds(hn, i, k);
        var l := BoundAt(ns, idx, hn, i);
        MirrorUnique(hn, i, k, l);
      }
    }
    if SameBothWays(hn, listed) {
      forall j | 0 <= j < |hn| ensures forms[bound[j]] == listed[j] {
        var k := BoundAt(ns, idx, hn, j);
        MirrorBounds(hn, j, k);
      }
    }
  }

  lemma MirrorBounds(hn: seq<string>, i: nat, k: nat)
    requires Mirrors(hn, i, k)
    ensures i < |hn| && k < |hn|
  {
  }

  lemma BoundAt(ns: seq<string>, idx: seq<nat>, hn: seq<string>, j: nat) returns (k: nat)
    requires Listed(ns, idx, hn) && j < |hn|
    ensures |Bind(ns, {}, hn, 0)| == |hn| && k < |idx|
    ensures Mirrors(hn, j, k) && Bind(ns, {}, hn, 0)[j] == idx[k]
  {
    NothingUsed(idx, hn);
    k := BindMirrors(ns, idx, hn, 0, {}, j);
  }

  lemma BoundLength(ns: seq<string>, idx: seq<nat>, hn: seq<string>) returns (bound: seq<nat>)
    requires Listed(ns, idx, hn)
    ensures bound == Bind(ns, {}, hn, 0) && |bound| == |hn|
  {
    bound := Bind(ns, {}, hn, 0);
    if hn != [] {
      var _ := BoundAt(ns, idx, hn, 0);
    }
  }
}
