/** The tag list of a DKIM-Signature header: how the signer writes it, how the
    verifier reads a tag back, and how it empties the b= tag in place. */
module DkimTags {
  import opened Common
  import opened DkimBody
  import opened DkimHeader

  datatype Tag = Tag(name: string, value: string)

  function TagText(t: Tag): string {
    t.name + "=" + t.value
  }

  /** Tags separated by "; ". */
  function Render(ts: seq<Tag>): string {
    if ts == [] then ""
    else if |ts| == 1 then TagText(ts[0])
    else TagText(ts[0]) + "; " + Render(ts[1..])
  }

  predicate IsSeparator(c: char) {
    c == ';' || IsWsp(c)
  }

  /** No byte that separates tags or breaks a line. */
  ghost predicate CleanText(s: string) {
    forall k :: 0 <= k < |s| ==> !IsSeparator(s[k]) && !IsBreak(s[k])
  }

  ghost predicate CleanTag(t: Tag) {
    t.name != "" && CleanText(t.name) && CleanText(t.value) && '=' !in t.name
  }

  // ---------------------------------------------------------------------
  // Reading a tag
  // ---------------------------------------------------------------------

  /** First ';' at or after `i`, or the end. */
  function SemiStop(v: string, i: nat): (r: nat)
    requires i <= |v|
    ensures i <= r <= |v|
    decreases |v| - i
  {
    if i < |v| && v[i] != ';' then SemiStop(v, i + 1) else i
  }

  /** A tag may start at `i`. */
  predicate AtTag(v: string, i: nat, tag: string) {
    i + |tag| <= |v| && (i == 0 || IsSeparator(v[i - 1])) && v[i..i + |tag|] == tag
  }

  /** tag_get from offset `i`: the first place where the tag starts. */
  function TagGet(v: string, tag: string, i: nat): Option<string>
    decreases |v| + 1 - i
  {
    if i + |tag| > |v| || i > |v| then None
    else if AtTag(v, i, tag) then
      var j := i + |tag|;
      Some(v[j..SemiStop(v, j)])
    else TagGet(v, tag, i + 1)
  }

  lemma {:induction false} TagGetSkip(v: string, tag: string, i: nat, j: nat)
    requires i <= j <= |v| && forall k :: i <= k < j ==> !AtTag(v, k, tag)
    ensures TagGet(v, tag, i) == TagGet(v, tag, j)
    decreases j - i
  {
    if i < j {
      TagGetSkip(v, tag, i + 1, j);
    }
  }

  lemma {:induction false} SemiStopAt(v: string, i: nat, j: nat)
    requires i <= j <= |v| && (forall k :: i <= k < j ==> v[k] != ';') && (j < |v| ==> v[j] == ';')
    ensures SemiStop(v, i) == j
    decreases j - i
  {
    if i < j {
      SemiStopAt(v, i + 1, j);
    }
  }

  /** The value of the first tag of that name. */
  function ValueOf(ts: seq<Tag>, name: string): Option<string> {
    if ts == [] then None
    else if ts[0].name == name then Some(ts[0].value)
    else ValueOf(ts[1..], name)
  }

  /** The parts of a tag, and what stands behind it. */
  ghost predicate TagAt(v: string, n: nat, t: Tag) {
    && TextAt(v, n, t.name)
    && TextAt(v, n + |t.name|, "=")
    && TextAt(v, n + |t.name| + 1, t.value)
  }

  function TagEnd(n: nat, t: Tag): nat {
    n + |t.name| + 1 + |t.value|
  }

  lemma RenderAt(v: string, n: nat, ts: seq<Tag>)
    requires ts != [] && TextAt(v, n, Render(ts))
    ensures TagAt(v, n, ts[0])
    ensures |ts| == 1 ==> n + |Render(ts)| == TagEnd(n, ts[0])
    ensures |ts| > 1 ==> && TextAt(v, TagEnd(n, ts[0]), "; ")
                         && TextAt(v, TagEnd(n, ts[0]) + 2, Render(ts[1..]))
                         && n + |Render(ts)| == TagEnd(n, ts[0]) + 2 + |Render(ts[1..])|
  {
    hide TextAt;
    var t := ts[0];
    if |ts| > 1 {
      TextAtJoin(v, n, TagText(t) + "; ", Render(ts[1..]));
      TextAtJoin(v, n, TagText(t), "; ");
    }
    TextAtJoin(v, n, t.name + "=", t.value);
    TextAtJoin(v, n, t.name, "=");
  }

  /** First '=' at or after `i`, or the end. */
  function EqStop(v: string, i: nat): nat
    requires i <= |v|
    decreases |v| - i
  {
    if i < |v| && v[i] != '=' then EqStop(v, i + 1) else i
  }

  lemma {:induction false} EqStopAfter(v: string, i: nat, j: nat)
    requires i <= j < |v| && v[j] == '=' && forall k :: i <= k < j ==> v[k] != '='
    ensures EqStop(v, i) == j
    decreases j - i
  {
    if i < j {
      EqStopAfter(v, i + 1, j);
    }
  }

  lemma NameStops(v: string, n: nat, name: string)
    requires TextAt(v, n, name) && TextAt(v, n + |name|, "=") && '=' !in name
    ensures EqStop(v, n) == n + |name|
  {
    assert v[n + |name| + 0] == "="[0];
    forall k | n <= k < n + |name| ensures v[k] != '=' {
      assert v[n + (k - n)] == name[k - n];
    }
    EqStopAfter(v, n, n + |name|);
  }

  /** At the start of a tag, `name=` is read exactly when the tag has that name. */
  lemma NameDecides(v: string, n: nat, t: Tag, name: string)
    requires TagAt(v, n, t) && CleanTag(t) && '=' !in name
    ensures TextAt(v, n, name + "=") <==> t.name == name
  {
    TextAtJoin(v, n, name, "=");
    NameStops(v, n, t.name);
    if TextAt(v, n, name + "=") {
      NameStops(v, n, name);
      assert forall k :: 0 <= k < |name| ==> v[n + k] == name[k] == t.name[k];
    }
  }

  lemma AtTagText(v: string, i: nat, tag: string)
    ensures AtTag(v, i, tag) <==> TextAt(v, i, tag) && (i == 0 || IsSeparator(v[i - 1]))
  {
    if i + |tag| <= |v| {
      var w := v[i..i + |tag|];
      assert forall k :: 0 <= k < |tag| ==> w[k] == v[i + k];
    }
  }

  /** Inside a tag no other tag can start. */
  lemma NoTagInside(v: string, n: nat, t: Tag, k: nat, tag: string)
    requires TagAt(v, n, t) && CleanTag(t) && n < k <= TagEnd(n, t) <= |v|
    ensures !AtTag(v, k, tag)
  {
    var j := k - 1 - n;
    if j < |t.name| {
      assert v[n + j] == t.name[j];
    } else if j == |t.name| {
      assert v[n + |t.name|] == "="[0];
    } else {
      assert v[n + |t.name| + 1 + (j - |t.name| - 1)] == t.value[j - |t.name| - 1];
    }
  }

  /** Scanning over one tag: found at its start ... */
  lemma FirstTagFound(v: string, n: nat, t: Tag)
    requires TagAt(v, n, t) && CleanTag(t)
    requires 0 < n && IsSeparator(v[n - 1])
    requires TagEnd(n, t) < |v| ==> v[TagEnd(n, t)] == ';'
    ensures TagGet(v, t.name + "=", n) == Some(t.value)
  {
    hide AtTag, SemiStop;
    var tag := t.name + "=";
    var j, e := n + |tag|, TagEnd(n, t);
    NameDecides(v, n, t, t.name);
    AtTagText(v, n, tag);
    forall k | j <= k < e ensures v[k] == t.value[k - j] {
      assert v[n + |t.name| + 1 + (k - j)] == t.value[k - j];
    }
    SemiStopAt(v, j, e);
    assert v[j..e] == t.value;
  }

  /** ... or nothing before its end. */
  lemma FirstTagSkipped(v: string, n: nat, t: Tag, name: string)
    requires TagAt(v, n, t) && CleanTag(t) && '=' !in name && t.name != name
    ensures TagGet(v, name + "=", n) == TagGet(v, name + "=", TagEnd(n, t))
  {
    hide AtTag, TagGet;
    var tag, e := name + "=", TagEnd(n, t);
    NameDecides(v, n, t, name);
    AtTagText(v, n, tag);
    forall k | n <= k < e ensures !AtTag(v, k, tag) {
      if n < k { NoTagInside(v, n, t, k, tag); }
    }
    TagGetSkip(v, tag, n, e);
  }

  /** tag_get on a rendered list finds the first tag of that name. */
  lemma {:induction false} TagGetRender(v: string, n: nat, ts: seq<Tag>, name: string)
    requires 0 < n && TextAt(v, n, Render(ts)) && n + |Render(ts)| == |v| && IsSeparator(v[n - 1])
    requires (forall t :: t in ts ==> CleanTag(t)) && name != "" && CleanText(name) && '=' !in name
    ensures TagGet(v, name + "=", n) == ValueOf(ts, name)
    decreases ts
  {
    hide Render, AtTag, CleanTag, TagGet;
    var tag := name + "=";
    if ts == [] {
      RenderNone();
      PastEnd(v, tag, n);
    } else {
      var t, e := ts[0], TagEnd(n, ts[0]);
      assert t in ts;
      RenderAt(v, n, ts);
      assert |ts| > 1 ==> v[e + 0] == "; "[0] && v[e + 1] == "; "[1];
      if t.name == name {
        FirstTagFound(v, n, t);
      } else {
        FirstTagSkipped(v, n, t, name);
        if |ts| == 1 {
          PastEnd(v, tag, e);
        } else {
          NotAtGap(v, n, t, name);
          TagGetRender(v, e + 2, ts[1..], name);
        }
      }
    }
  }

  lemma RenderNone()
    ensures Render([]) == ""
  {
  }

  lemma PastEnd(v: string, tag: string, n: nat)
    requires n == |v| && tag != ""
    ensures TagGet(v, tag, n) == None
  {
  }

  lemma NotAtGap(v: string, n: nat, t: Tag, name: string)
    requires TagAt(v, n, t) && CleanTag(t) && name != "" && CleanText(name)
    requires TagEnd(n, t) + 2 <= |v| && v[TagEnd(n, t) + 1] == ' '
    ensures TagGet(v, name + "=", TagEnd(n, t)) == TagGet(v, name + "=", TagEnd(n, t) + 2)
  {
    var tag, e := name + "=", TagEnd(n, t);
    NoTagInside(v, n, t, e, tag);
    AtTagText(v, e + 1, tag);
    assert TextAt(v, e + 1, tag) ==> v[e + 1 + 0] == tag[0] == name[0];
    TagGetSkip(v, tag, e, e + 2);
  }

  // ---------------------------------------------------------------------
  // Emptying b=
  // ---------------------------------------------------------------------

  function SkipFws(h: string, i: nat): (r: nat)
    requires i <= |h|
    ensures i <= r <= |h|
    decreases |h| - i
  {
    if i < |h| && IsFws(h[i]) then SkipFws(h, i + 1) else i
  }

  /** Back over whitespace, not below `lo`. */
  function TrimBack(h: string, lo: nat, e: nat): (r: nat)
    requires lo <= e <= |h|
    ensures lo <= r <= e
  {
    if e > lo && IsWsp(h[e - 1]) then TrimBack(h, lo, e - 1) else e
  }

  /** What the loop of canon_raw_dkim_hdr does at the ';' at offset `q`: a b= tag
      behind it loses its value. */
  function EmptyAt(h: string, q: nat): (r: string)
    requires q < |h|
    ensures q < |r| <= |h| && r[..q + 1] == h[..q + 1]
  {
    var t := SkipFws(h, q + 1);
    if t + 1 < |h| && h[t] == 'b' && h[t + 1] == '=' then
      h[..t + 2] + h[TrimBack(h, t + 2, SemiStop(h, t + 2))..]
    else h
  }

  /** The loop from offset `q`. */
  function EmptyB(h: string, q: nat): (r: string)
    requires q <= |h|
    ensures q <= |r|
    decreases |h| - q
  {
    if q == |h| then h
    else if h[q] != ';' then EmptyB(h, q + 1)
    else EmptyB(EmptyAt(h, q), q + 1)
  }

  method SkipFwsLoop(h: string, start: nat) returns (t: nat)
    requires start <= |h|
    ensures t == SkipFws(h, start)
  {
    t := start;
    while t < |h| && (h[t] == ' ' || h[t] == '\t' || h[t] == '\r' || h[t] == '\n')
      invariant start <= t <= |h| && SkipFws(h, start) == SkipFws(h, t)
    {
      t := t + 1;
    }
  }

  method ValueEnd(h: string, start: nat) returns (end: nat)
    requires start <= |h|
    ensures end == TrimBack(h, start, SemiStop(h, start))
  {
    end := start;
    while end < |h| && h[end] != ';'
      invariant start <= end <= |h| && SemiStop(h, start) == SemiStop(h, end)
    {
      end := end + 1;
    }
    while end > start && (h[end - 1] == ' ' || h[end - 1] == '\t')
      invariant start <= end <= |h| && TrimBack(h, start, SemiStop(h, start)) == TrimBack(h, start, end)
    {
      end := end - 1;
    }
  }

  method EmptyTag(h: string, q: nat) returns (r: string)
    requires q < |h|
    ensures r == EmptyAt(h, q)
  {
    hide SkipFws, SemiStop, TrimBack;
    var t := SkipFwsLoop(h, q + 1);
    if !(t + 1 < |h| && h[t] == 'b' && h[t + 1] == '=') { return h; }
    var end := ValueEnd(h, t + 2);
    r := h[..t + 2] + h[end..];
  }

  /** The loop itself, on header text that shrinks under it. */
  method EmptyBLoop(raw: string, start: nat) returns (h: string)
    requires start <= |raw|
    ensures h == EmptyB(raw, start)
  {
    h := raw;
    var q: nat := start;
    while q < |h|
      invariant q <= |h| && EmptyB(h, q) == EmptyB(raw, start)
      decreases |h| - q
    {
      if h[q] == ';' { h := EmptyTag(h, q); }
      q := q + 1;
    }
  }

  lemma {:induction false} EmptyBSkip(h: string, q: nat, r: nat)
    requires q <= r <= |h| && forall k :: q <= k < r ==> h[k] != ';'
    ensures EmptyB(h, q) == EmptyB(h, r)
    decreases r - q
  {
    if q < r {
      EmptyBSkip(h, q + 1, r);
    }
  }

  /** A signature header of clean tags whose last tag is b=: only the value of
      that tag (and the line end behind it) goes. */
  lemma {:induction false} EmptyBRender(h: string, n: nat, ts: seq<Tag>, b: string)
    requires ts != [] && (forall t :: t in ts ==> CleanTag(t) && t.name != "b") && CleanText(b)
    requires TextAt(h, n, Render(ts))
    requires var e := n + |Render(ts)|;
             && TextAt(h, e, "; b=") && TextAt(h, e + 4, b) && TextAt(h, e + 4 + |b|, CRLF)
             && e + 4 + |b| + 2 == |h|
    ensures EmptyB(h, n) == h[..n + |Render(ts)| + 4]
    decreases ts
  {
    hide Render, EmptyB;
    var t, e := ts[0], TagEnd(n, ts[0]);
    assert t in ts;
    RenderAt(h, n, ts);
    NoSemiInTag(h, n, t);
    EmptyBSkip(h, n, e);
    if |ts| == 1 {
      LastTagEmptied(h, e, b);
    } else {
      RenderAt(h, e + 2, ts[1..]);
      assert ts[1] in ts;
      OtherTagKept(h, e, ts[1]);
      EmptyBRender(h, e + 2, ts[1..], b);
    }
  }

  lemma NoSemiInTag(h: string, n: nat, t: Tag)
    requires TagAt(h, n, t) && CleanTag(t)
    ensures forall k :: n <= k < TagEnd(n, t) ==> h[k] != ';'
  {
    forall k | n <= k < TagEnd(n, t) ensures h[k] != ';' {
      var j := k - n;
      if j < |t.name| {
        assert h[n + j] == t.name[j];
      } else if j == |t.name| {
        assert h[n + |t.name|] == "="[0];
      } else {
        assert h[n + |t.name| + 1 + (j - |t.name| - 1)] == t.value[j - |t.name| - 1];
      }
    }
  }

  lemma LastTagEmptied(h: string, e: nat, b: string)
    requires CleanText(b) && TextAt(h, e, "; b=") && TextAt(h, e + 4, b) && TextAt(h, e + 4 + |b|, CRLF)
    requires e + 4 + |b| + 2 == |h|
    ensures EmptyB(h, e) == h[..e + 4]
  {
    assert h[e + 0] == "; b="[0] && h[e + 1] == "; b="[1] && h[e + 2] == "; b="[2] && h[e + 3] == "; b="[3];
    assert h[e + 4 + |b| + 0] == CRLF[0] && h[e + 4 + |b| + 1] == CRLF[1];
    assert SkipFws(h, e + 1) == e + 2;
    assert forall k :: 0 <= k < |b| ==> h[e + 4 + k] == b[k];
    forall k | e + 4 <= k < |h| ensures h[k] != ';' {
      assert k < e + 4 + |b| ==> h[k] == b[k - e - 4];
    }
    SemiStopAt(h, e + 4, |h|);
    var cut := h[..e + 4] + h[|h|..];
    assert cut == h[..e + 4];
    assert TrimBack(h, e + 4, |h|) == |h|;
    assert EmptyB(h, e) == EmptyB(cut, e + 1);
    EmptyBSkip(cut, e + 1, |cut|);
  }

  lemma OtherTagKept(h: string, e: nat, next: Tag)
    requires TextAt(h, e, "; ") && TagAt(h, e + 2, next) && CleanTag(next) && next.name != "b"
    ensures EmptyB(h, e) == EmptyB(h, e + 2)
  {
    assert h[e + 0] == "; "[0] && h[e + 1] == "; "[1];
    var n := e + 2;
    assert h[n + 0] == next.name[0];
    assert SkipFws(h, e + 1) == n;
    assert h[n + |next.name|] == "="[0];
    assert |next.name| > 1 ==> h[n + 1] == next.name[1];
    assert |next.name| == 1 ==> next.name == [next.name[0]];
    assert EmptyB(h, e) == EmptyB(h, e + 1);
    EmptyBSkip(h, e + 1, e + 2);
  }

  // ---------------------------------------------------------------------
  // Texts the signer does not write
  // ---------------------------------------------------------------------

  /** Whatever stands in a list: a tag whose text is found at no earlier tag start has
      everything up to the next ';' as its value, white space included. */
  lemma TagIsRead(head: string, tag: string, value: string, rest: string)
    requires forall k :: 0 <= k < |head| && TextAt(head + tag + value + rest, k, tag) ==>
               k > 0 && head[k - 1] != ';' && head[k - 1] != ' ' && head[k - 1] != '\t'
    requires head != "" ==> head[|head| - 1] == ';' || head[|head| - 1] == ' ' || head[|head| - 1] == '\t'
    requires ';' !in value && (rest != "" ==> rest[0] == ';')
    ensures TagGet(head + tag + value + rest, tag, 0) == Some(value)
  {
    var v, i := head + tag + value + rest, |head|;
    var j := i + |tag|;
    forall k | 0 <= k < i ensures !AtTag(v, k, tag) { AtTagText(v, k, tag); }
    TagGetSkip(v, tag, 0, i);
    assert v[i..j] == tag;
    forall k | j <= k < j + |value| ensures v[k] != ';' { assert v[k] == value[k - j]; }
    SemiStopAt(v, j, j + |value|);
    assert v[j..j + |value|] == value;
  }

  /** A text that stands at no tag start is no tag of the list. */
  lemma NoTagIsRead(v: string, tag: string)
    requires forall k :: 0 <= k <= |v| && TextAt(v, k, tag) ==>
               k > 0 && v[k - 1] != ';' && v[k - 1] != ' ' && v[k - 1] != '\t'
    ensures TagGet(v, tag, 0) == None
  {
    forall k | 0 <= k <= |v| ensures !AtTag(v, k, tag) { AtTagText(v, k, tag); }
    TagGetSkip(v, tag, 0, |v|);
  }

  /** A b= tag behind any fold loses its value, and nothing else: not the white space
      between the value and the next ';'. */
  lemma TagIsEmptied(head: string, fold: string, b: string, gap: string, rest: string)
    requires forall c :: c in fold ==> c == ' ' || c == '\t' || c == '\r' || c == '\n'
    requires ';' !in b && (b != "" ==> b[|b| - 1] != ' ' && b[|b| - 1] != '\t')
    requires (forall c :: c in gap ==> c == ' ' || c == '\t') && (rest != "" ==> rest[0] == ';')
    ensures var front := head + ";" + fold + "b=";
            EmptyAt(front + b + gap + rest, |head|) == front + gap + rest
  {
    hide EmptyAt;
    var front := head + ";" + fold + "b=";
    var h := front + b + gap + rest;
    var t, m, e := |head| + 1 + |fold|, |front| + |b|, |front| + |b| + |gap|;
    assert h[t] == 'b' && h[t + 1] == '=';
    forall k | |head| + 1 <= k < t ensures IsFws(h[k]) {
      assert h[k] == fold[k - |head| - 1] && fold[k - |head| - 1] in fold;
    }
    forall k | |front| <= k < m ensures h[k] != ';' { assert h[k] == b[k - |front|]; }
    forall k | m <= k < e ensures IsWsp(h[k]) { assert h[k] == gap[k - m] && gap[k - m] in gap; }
    assert e < |h| ==> h[e] == rest[0];
    assert b != "" ==> h[m - 1] == b[|b| - 1];
    EmptiedAt(h, |head|, t, m, e);
    assert h[..|front|] == front && h[m..] == gap + rest;
    assert front + (gap + rest) == front + gap + rest;
  }

  lemma EmptiedAt(h: string, q: nat, t: nat, m: nat, e: nat)
    requires q < t && t + 2 <= m <= e <= |h| && h[t] == 'b' && h[t + 1] == '='
    requires (forall k :: q + 1 <= k < t ==> IsFws(h[k])) && (forall k :: t + 2 <= k < m ==> h[k] != ';')
    requires (forall k :: m <= k < e ==> IsWsp(h[k])) && (e < |h| ==> h[e] == ';')
    requires m > t + 2 ==> !IsWsp(h[m - 1])
    ensures EmptyAt(h, q) == h[..t + 2] + h[m..]
  {
    hide SkipFws, SemiStop, TrimBack, EmptyAt;
    SkipTo(h, q + 1, t);
    forall k | t + 2 <= k < e ensures h[k] != ';' { assert k >= m ==> IsWsp(h[k]); }
    SemiStopAt(h, t + 2, e);
    TrimTo(h, t + 2, m, e);
    EmptiedText(h, q);
  }

  lemma EmptiedText(h: string, q: nat)
    requires q < |h|
    ensures var t := SkipFws(h, q + 1);
            EmptyAt(h, q) == if t + 1 < |h| && h[t] == 'b' && h[t + 1] == '='
                             then h[..t + 2] + h[TrimBack(h, t + 2, SemiStop(h, t + 2))..]
                             else h
  {
  }

  lemma {:induction false} SkipTo(h: string, i: nat, j: nat)
    requires i <= j <= |h| && (forall k :: i <= k < j ==> IsFws(h[k])) && (j < |h| ==> !IsFws(h[j]))
    ensures SkipFws(h, i) == j
    decreases j - i
  {
    if i < j { SkipTo(h, i + 1, j); }
  }

  lemma {:induction false} TrimTo(h: string, lo: nat, e: nat, n: nat)
    requires lo <= e <= n <= |h| && (forall k :: e <= k < n ==> IsWsp(h[k])) && (lo < e ==> !IsWsp(h[e - 1]))
    ensures TrimBack(h, lo, n) == e
    decreases n - e
  {
    if e < n { TrimTo(h, lo, e, n - 1); }
  }

  /** Any other tag stays as it is. */
  lemma OtherIsKept(head: string, fold: string, tail: string)
    requires forall c :: c in fold ==> c == ' ' || c == '\t' || c == '\r' || c == '\n'
    requires tail != "" ==> tail[0] != ' ' && tail[0] != '\t' && tail[0] != '\r' && tail[0] != '\n'
    requires !TextAt(tail, 0, "b=")
    ensures EmptyAt(head + ";" + fold + tail, |head|) == head + ";" + fold + tail
  {
    hide EmptyAt, TrimBack, SemiStop, SkipFws;
    var h := head + ";" + fold + tail;
    var t := |head| + 1 + |fold|;
    forall k | |head| + 1 <= k < t ensures IsFws(h[k]) {
      assert h[k] == fold[k - |head| - 1] && fold[k - |head| - 1] in fold;
    }
    assert t < |h| ==> h[t] == tail[0];
    assert t + 1 < |h| ==> h[t + 1] == tail[1];
    SkipTo(h, |head| + 1, t);
    EmptiedText(h, |head|);
  }
}
