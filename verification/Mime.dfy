/** The MIME part walk and the resolution of a part number: two readings of the
    same delimiter rule. */
module Mime {
  import opened Common

  const MAX_DEPTH: nat := 16

  datatype Span = Span(start: nat, end: nat)

  // ---------------------------------------------------------------------
  // Delimiters and the parts between them
  // ---------------------------------------------------------------------

  /** First delimiter from `i` on that ends by `end`, or `end`. */
  function Find(msg: string, i: nat, end: nat, delim: string): (r: nat)
    requires i <= end <= |msg| && delim != ""
    ensures i <= r <= end && (r < end ==> r + |delim| <= end && msg[r..r + |delim|] == delim)
    decreases end - i
  {
    if i + |delim| > end then end
    else if msg[i..i + |delim|] == delim then i
    else Find(msg, i + 1, end, delim)
  }

  /** `e` without the line breaks before it, but not below `p`. */
  function Trim(msg: string, p: nat, e: nat): (r: nat)
    requires p <= e <= |msg|
    ensures p <= r <= e
    decreases e
  {
    if e > p && IsBreak(msg[e - 1]) then Trim(msg, p, e - 1) else e
  }

  /** Past the line break after a delimiter. */
  function SkipBreak(msg: string, p: nat, end: nat): (r: nat)
    requires p <= end <= |msg|
    ensures p <= r <= end
  {
    if p + 1 < end && msg[p] == '\r' && msg[p + 1] == '\n' then p + 2
    else if p < end && IsBreak(msg[p]) then p + 1
    else p
  }

  /** The part after the first delimiter from `pos` on, unless that one closes. */
  function NextPart(msg: string, pos: nat, end: nat, delim: string): (r: Option<Span>)
    requires pos <= end <= |msg| && delim != ""
    ensures r.Some? ==> pos + |delim| <= r.value.start <= r.value.end <= end
  {
    var d := Find(msg, pos, end, delim);
    if d == end then None
    else
      var q := d + |delim|;
      if q + 2 <= end && msg[q] == '-' && msg[q + 1] == '-' then None
      else
        var p := SkipBreak(msg, q, end);
        Some(Span(p, Trim(msg, p, Find(msg, p, end, delim))))
  }

  /** Every part of a multipart body, empty ones included. */
  function Parts(msg: string, pos: nat, end: nat, delim: string): seq<Span>
    requires pos <= end <= |msg| && delim != ""
    decreases end - pos
  {
    match NextPart(msg, pos, end, delim)
    case None => []
    case Some(s) => [s] + Parts(msg, s.end, end, delim)
  }

  ghost predicate InOrder(ps: seq<Span>, lo: nat, hi: nat) {
    && (forall i :: 0 <= i < |ps| ==> lo <= ps[i].start <= ps[i].end <= hi)
    && (forall i, j :: 0 <= i < j < |ps| ==> ps[i].end < ps[j].start)
  }

  lemma InOrderCons(s: Span, ps: seq<Span>, lo: nat, hi: nat)
    requires lo < s.start <= s.end <= hi && InOrder(ps, s.end, hi)
    requires forall i :: 0 <= i < |ps| ==> s.end < ps[i].start
    ensures InOrder([s] + ps, lo, hi)
    ensures forall i :: 0 <= i < |[s] + ps| ==> lo < ([s] + ps)[i].start
  {
  }

  /** Parts lie inside the body, in order and apart. */
  lemma {:induction false} PartsInOrder(msg: string, pos: nat, end: nat, delim: string)
    requires pos <= end <= |msg| && delim != ""
    ensures InOrder(Parts(msg, pos, end, delim), pos, end)
    ensures forall i :: 0 <= i < |Parts(msg, pos, end, delim)| ==> pos < Parts(msg, pos, end, delim)[i].start
    decreases end - pos
  {
    assert InOrder([], pos, end);
    hide NextPart, InOrder;
    var n := NextPart(msg, pos, end, delim);
    if n.Some? {
      PartsInOrder(msg, n.value.end, end, delim);
      InOrderCons(n.value, Parts(msg, n.value.end, end, delim), pos, end);
    }
  }

  // ---------------------------------------------------------------------
  // Resolving a part number
  // ---------------------------------------------------------------------

  /** The boundary a header block declares, if it is a multipart with one. */
  type Boundaries = string -> Option<string>

  /** A part's byte range and the end of its header. */
  datatype Loc = Loc(start: nat, end: nat, hdrEnd: nat)

  function Locate(msg: string, s: nat, e: nat): (r: Loc)
    requires s <= e <= |msg|
    ensures r.start == s && r.end == e && s <= r.hdrEnd <= e
  {
    Loc(s, e, s + HeaderEnd(msg[s..e]))
  }

  /** The parts of the container at [s, e), none if it is no container. */
  function Kids(bd: Boundaries, msg: string, s: nat, e: nat): (r: seq<Span>)
    requires s <= e <= |msg|
    ensures InOrder(r, Locate(msg, s, e).hdrEnd, e)
  {
    var he := Locate(msg, s, e).hdrEnd;
    match bd(msg[s..he])
    case None => []
    case Some(b) =>
      PartsInOrder(msg, he, e, "--" + b);
      Parts(msg, he, e, "--" + b)
  }

  /** imapd_mime_part from component `i` of the path on. */
  function Resolve(bd: Boundaries, msg: string, s: nat, e: nat, path: seq<int>, i: nat): (r: Option<Loc>)
    requires s <= e <= |msg| && i <= |path|
    decreases |path| - i
  {
    if i == |path| then Some(Locate(msg, s, e))
    else
      var ps := Kids(bd, msg, s, e);
      if 1 <= path[i] <= |ps| then Resolve(bd, msg, ps[path[i] - 1].start, ps[path[i] - 1].end, path, i + 1)
      else None
  }

  lemma {:induction false} ResolveInside(bd: Boundaries, msg: string, s: nat, e: nat, path: seq<int>, i: nat)
    requires s <= e <= |msg| && i <= |path|
    ensures var r := Resolve(bd, msg, s, e, path, i);
            r.Some? ==> s <= r.value.start <= r.value.hdrEnd <= r.value.end <= e
    decreases |path| - i
  {
    if i < |path| {
      var ps := Kids(bd, msg, s, e);
      if 1 <= path[i] <= |ps| {
        ResolveInside(bd, msg, ps[path[i] - 1].start, ps[path[i] - 1].end, path, i + 1);
      }
    }
  }

  // ---------------------------------------------------------------------
  // The walk
  // ---------------------------------------------------------------------

  /** A reported part: its number, the number it would have if empty siblings were
      counted too, and where it is. */
  datatype Part = Part(id: seq<int>, place: seq<int>, loc: Loc)

  /** The part at [s, e) and everything below it, in preorder. */
  function Walk(bd: Boundaries, msg: string, s: nat, e: nat, id: seq<int>, place: seq<int>): seq<Part>
    requires s <= e <= |msg| && |id| < MAX_DEPTH
    decreases MAX_DEPTH - |id|, 1, 0
  {
    [Part(id, place, Locate(msg, s, e))]
    + if |id| + 1 < MAX_DEPTH then WalkKids(bd, msg, Kids(bd, msg, s, e), 0, 0, id, place) else []
  }

  /** Children `j` onward; `k` nonempty ones came before. Empty ones are skipped. */
  function WalkKids(bd: Boundaries, msg: string, ps: seq<Span>, j: nat, k: nat, id: seq<int>,
                    place: seq<int>): seq<Part>
    requires j <= |ps| && |id| + 1 < MAX_DEPTH
    requires forall i :: 0 <= i < |ps| ==> ps[i].start <= ps[i].end <= |msg|
    decreases MAX_DEPTH - |id|, 0, |ps| - j
  {
    if j == |ps| then []
    else if ps[j].start < ps[j].end then
      Walk(bd, msg, ps[j].start, ps[j].end, id + [k + 1], place + [j + 1])
      + WalkKids(bd, msg, ps, j + 1, k + 1, id, place)
    else WalkKids(bd, msg, ps, j + 1, k, id, place)
  }

  /** Every part reported for a message. */
  function Report(bd: Boundaries, msg: string): seq<Part> {
    Walk(bd, msg, 0, |msg|, [], [])
  }

  // ---------------------------------------------------------------------
  // Part numbers resolve
  // ---------------------------------------------------------------------

  /** `p` belongs to the subtree of the part numbered `id` at [s, e). */
  ghost predicate Under(p: Part, id: seq<int>, place: seq<int>, s: nat, e: nat) {
    && |p.id| == |p.place| && id <= p.id && place <= p.place
    && s <= p.loc.start <= p.loc.hdrEnd <= p.loc.end <= e
  }

  /** From component `n` on, no empty sibling makes the two numbers differ. */
  ghost predicate SameFrom(p: Part, n: nat)
    requires |p.id| == |p.place|
  {
    forall i :: n <= i < |p.id| ==> p.id[i] == p.place[i]
  }

  /** From the part numbered `id` at [s, e), counting empty siblings leads to `p`,
      and its own number does exactly when it is the same. */
  ghost predicate Leads(bd: Boundaries, msg: string, s: nat, e: nat, n: nat, p: Part)
    requires s <= e <= |msg| && n <= |p.id| == |p.place|
  {
    && Resolve(bd, msg, s, e, p.place, n) == Some(p.loc)
    && (Resolve(bd, msg, s, e, p.id, n) == Some(p.loc) <==> SameFrom(p, n))
  }

  lemma UnderUp(p: Part, id: seq<int>, place: seq<int>, k: nat, j: nat, c: Span, s: nat, e: nat)
    requires Under(p, id + [k], place + [j], c.start, c.end) && |id| == |place| && s <= c.start && c.end <= e
    ensures Under(p, id, place, s, e) && c.start <= p.loc.start
    ensures |id| < |p.id| == |p.place| && p.id[|id|] == k && p.place[|id|] == j
  {
    assert id <= id + [k] && place <= place + [j];
    assert p.id[|id|] == (id + [k])[|id|] && p.place[|id|] == (place + [j])[|id|];
  }

  /** One component of a path. */
  lemma ResolveStep(bd: Boundaries, msg: string, s: nat, e: nat, path: seq<int>, n: nat, j: nat)
    requires s <= e <= |msg| && n < |path| && path[n] == j + 1 && j < |Kids(bd, msg, s, e)|
    ensures var c := Kids(bd, msg, s, e)[j];
            Resolve(bd, msg, s, e, path, n) == Resolve(bd, msg, c.start, c.end, path, n + 1)
  {
    hide Kids;
  }

  /** One step up: from a part to its parent. */
  lemma LeadsUp(bd: Boundaries, msg: string, s: nat, e: nat, j: nat, k: nat, n: nat, p: Part)
    requires s <= e <= |msg| && k <= j < |Kids(bd, msg, s, e)|
    requires n < |p.id| == |p.place| && p.id[n] == k + 1 && p.place[n] == j + 1
    requires var c := Kids(bd, msg, s, e)[j];
             c.start <= p.loc.start && Leads(bd, msg, c.start, c.end, n + 1, p)
    ensures Leads(bd, msg, s, e, n, p)
  {
    var ps := Kids(bd, msg, s, e);
    var c, d := ps[j], ps[k];
    ResolveStep(bd, msg, s, e, p.place, n, j);
    ResolveStep(bd, msg, s, e, p.id, n, k);
    ResolveInside(bd, msg, d.start, d.end, p.id, n + 1);
    assert k < j ==> d.end < c.start;
    hide Kids, Resolve;
    assert SameFrom(p, n) <==> k == j && SameFrom(p, n + 1);
  }

  lemma {:induction false} WalkLeads(bd: Boundaries, msg: string, s: nat, e: nat, id: seq<int>,
                                     place: seq<int>, p: Part)
    requires s <= e <= |msg| && |id| == |place| < MAX_DEPTH
    requires p in Walk(bd, msg, s, e, id, place)
    ensures Under(p, id, place, s, e) && Leads(bd, msg, s, e, |id|, p)
    decreases MAX_DEPTH - |id|, 1, 0
  {
    var root := Part(id, place, Locate(msg, s, e));
    if p != root {
      var ps := Kids(bd, msg, s, e);
      assert p in WalkKids(bd, msg, ps, 0, 0, id, place);
      KidsLead(bd, msg, s, e, 0, 0, id, place, p);
    }
  }

  /** A part among the children from `j` on is in the subtree of `j`, or among
      those behind it. */
  lemma KidsCases(bd: Boundaries, msg: string, ps: seq<Span>, j: nat, k: nat, id: seq<int>, place: seq<int>, p: Part)
    requires j <= |ps| && |id| + 1 < MAX_DEPTH
    requires forall i :: 0 <= i < |ps| ==> ps[i].start <= ps[i].end <= |msg|
    requires p in WalkKids(bd, msg, ps, j, k, id, place)
    ensures j < |ps|
    ensures if ps[j].start < ps[j].end
            then p in Walk(bd, msg, ps[j].start, ps[j].end, id + [k + 1], place + [j + 1])
                 || p in WalkKids(bd, msg, ps, j + 1, k + 1, id, place)
            else p in WalkKids(bd, msg, ps, j + 1, k, id, place)
  {
    hide Walk;
  }

  lemma {:induction false} KidsLead(bd: Boundaries, msg: string, s: nat, e: nat, j: nat, k: nat, id: seq<int>,
                                    place: seq<int>, p: Part)
    requires s <= e <= |msg| && |id| == |place| && |id| + 1 < MAX_DEPTH
    requires k <= j <= |Kids(bd, msg, s, e)|
    requires p in WalkKids(bd, msg, Kids(bd, msg, s, e), j, k, id, place)
    ensures Under(p, id, place, s, e) && Leads(bd, msg, s, e, |id|, p)
    decreases MAX_DEPTH - |id|, 0, |Kids(bd, msg, s, e)| - j
  {
    hide Kids, Leads, Under, Walk, WalkKids;
    var ps := Kids(bd, msg, s, e);
    KidsCases(bd, msg, ps, j, k, id, place, p);
    if ps[j].start < ps[j].end {
      var sub := Walk(bd, msg, ps[j].start, ps[j].end, id + [k + 1], place + [j + 1]);
      if p in sub {
        WalkLeads(bd, msg, ps[j].start, ps[j].end, id + [k + 1], place + [j + 1], p);
        UnderUp(p, id, place, k + 1, j + 1, ps[j], s, e);
        assert |id + [k + 1]| == |id| + 1;
        LeadsUp(bd, msg, s, e, j, k, |id|, p);
      } else {
        KidsLead(bd, msg, s, e, j + 1, k + 1, id, place, p);
      }
    } else {
      KidsLead(bd, msg, s, e, j + 1, k, id, place, p);
    }
  }

  /** How many of the first `j` parts are not empty. */
  function Full(ps: seq<Span>, j: nat): (r: nat)
    requires j <= |ps|
    ensures r <= j && (r == j <==> forall i :: 0 <= i < j ==> ps[i].start < ps[i].end)
  {
    if j == 0 then 0 else Full(ps, j - 1) + if ps[j - 1].start < ps[j - 1].end then 1 else 0
  }

  /** Along the way from component `n` on, no sibling before the one taken is empty. */
  ghost predicate Solid(bd: Boundaries, msg: string, s: nat, e: nat, place: seq<int>, n: nat)
    requires s <= e <= |msg| && n <= |place|
    decreases |place| - n
  {
    n == |place|
    || var ps := Kids(bd, msg, s, e);
       && 1 <= place[n] <= |ps|
       && (forall i :: 0 <= i < place[n] - 1 ==> ps[i].start < ps[i].end)
       && Solid(bd, msg, ps[place[n] - 1].start, ps[place[n] - 1].end, place, n + 1)
  }

  lemma {:induction false} WalkSolid(bd: Boundaries, msg: string, s: nat, e: nat, id: seq<int>,
                                     place: seq<int>, p: Part)
    requires s <= e <= |msg| && |id| == |place| < MAX_DEPTH
    requires p in Walk(bd, msg, s, e, id, place)
    ensures Under(p, id, place, s, e) && (SameFrom(p, |id|) <==> Solid(bd, msg, s, e, p.place, |id|))
    decreases MAX_DEPTH - |id|, 1, 0
  {
    if p != Part(id, place, Locate(msg, s, e)) {
      assert p in WalkKids(bd, msg, Kids(bd, msg, s, e), 0, 0, id, place);
      KidsSolid(bd, msg, s, e, 0, 0, id, place, p);
    }
  }

  lemma {:induction false} KidsSolid(bd: Boundaries, msg: string, s: nat, e: nat, j: nat, k: nat, id: seq<int>,
                                     place: seq<int>, p: Part)
    requires s <= e <= |msg| && |id| == |place| && |id| + 1 < MAX_DEPTH
    requires j <= |Kids(bd, msg, s, e)| && k == Full(Kids(bd, msg, s, e), j)
    requires p in WalkKids(bd, msg, Kids(bd, msg, s, e), j, k, id, place)
    ensures Under(p, id, place, s, e) && (SameFrom(p, |id|) <==> Solid(bd, msg, s, e, p.place, |id|))
    decreases MAX_DEPTH - |id|, 0, |Kids(bd, msg, s, e)| - j
  {
    hide Kids, Under, Walk, Solid, SameFrom, WalkKids, Full;
    var ps := Kids(bd, msg, s, e);
    KidsCases(bd, msg, ps, j, k, id, place, p);
    FullNext(ps, j);
    if ps[j].start < ps[j].end {
      if p in Walk(bd, msg, ps[j].start, ps[j].end, id + [k + 1], place + [j + 1]) {
        KidSolid(bd, msg, s, e, j, k, id, place, p);
      } else {
        KidsSolid(bd, msg, s, e, j + 1, k + 1, id, place, p);
      }
    } else {
      KidsSolid(bd, msg, s, e, j + 1, k, id, place, p);
    }
  }

  lemma {:induction false} KidSolid(bd: Boundaries, msg: string, s: nat, e: nat, j: nat, k: nat, id: seq<int>,
                                    place: seq<int>, p: Part)
    requires s <= e <= |msg| && |id| == |place| && |id| + 1 < MAX_DEPTH
    requires j < |Kids(bd, msg, s, e)| && k == Full(Kids(bd, msg, s, e), j)
    requires var c := Kids(bd, msg, s, e)[j];
             p in Walk(bd, msg, c.start, c.end, id + [k + 1], place + [j + 1])
    ensures Under(p, id, place, s, e) && (SameFrom(p, |id|) <==> Solid(bd, msg, s, e, p.place, |id|))
    decreases MAX_DEPTH - |id|, 0, 0
  {
    hide Kids, Under, Walk, Solid, SameFrom, Full;
    var c := Kids(bd, msg, s, e)[j];
    WalkSolid(bd, msg, c.start, c.end, id + [k + 1], place + [j + 1], p);
    UnderUp(p, id, place, k + 1, j + 1, c, s, e);
    assert |id + [k + 1]| == |id| + 1;
    SolidUp(bd, msg, s, e, j, |id|, p);
  }

  lemma FullNext(ps: seq<Span>, j: nat)
    requires j <= |ps|
    ensures j < |ps| ==> Full(ps, j + 1) == Full(ps, j) + if ps[j].start < ps[j].end then 1 else 0
  {
  }

  lemma SolidUp(bd: Boundaries, msg: string, s: nat, e: nat, j: nat, n: nat, p: Part)
    requires s <= e <= |msg| && j < |Kids(bd, msg, s, e)|
    requires n < |p.id| == |p.place| && p.id[n] == Full(Kids(bd, msg, s, e), j) + 1 && p.place[n] == j + 1
    requires var c := Kids(bd, msg, s, e)[j];
             SameFrom(p, n + 1) <==> Solid(bd, msg, c.start, c.end, p.place, n + 1)
    ensures SameFrom(p, n) <==> Solid(bd, msg, s, e, p.place, n)
  {
    hide Kids;
    var ps := Kids(bd, msg, s, e);
    assert SameFrom(p, n) <==> Full(ps, j) == j && SameFrom(p, n + 1);
  }

  lemma SameThroughout(p: Part)
    requires |p.id| == |p.place|
    ensures SameFrom(p, 0) <==> p.id == p.place
  {
  }

  /** A reported part number resolves to the reported bytes and header end exactly
      when, along the way to it, no empty part stands before the sibling taken. */
  lemma ReportedPartResolvesIff(bd: Boundaries, msg: string, p: Part)
    requires p in Report(bd, msg)
    ensures Resolve(bd, msg, 0, |msg|, p.place, 0) == Some(p.loc)
    ensures Resolve(bd, msg, 0, |msg|, p.id, 0) == Some(p.loc) <==> p.id == p.place
    ensures p.id == p.place <==> Solid(bd, msg, 0, |msg|, p.place, 0)
  {
    hide Resolve, Walk, Solid;
    WalkLeads(bd, msg, 0, |msg|, [], [], p);
    WalkSolid(bd, msg, 0, |msg|, [], [], p);
    SameThroughout(p);
    hide Under, SameFrom;
  }

  // ---------------------------------------------------------------------
  // Parts nest
  // ---------------------------------------------------------------------

  /** Two parts in report order: the later lies in the body of the earlier, or
      wholly after it; the former exactly when it is a descendant. */
  ghost predicate Nest(p: Part, q: Part) {
    if p.place <= q.place then p.loc.hdrEnd <= q.loc.start && q.loc.end <= p.loc.end
    else p.loc.end < q.loc.start
  }

  ghost predicate AllNest(ps: seq<Part>) {
    forall i, j :: 0 <= i < j < |ps| ==> Nest(ps[i], ps[j])
  }

  lemma NestJoin(xs: seq<Part>, ys: seq<Part>)
    requires AllNest(xs) && AllNest(ys)
    requires forall x, y :: x in xs && y in ys ==> Nest(x, y)
    ensures AllNest(xs + ys)
  {
    var zs := xs + ys;
    forall i, j | 0 <= i < j < |zs| ensures Nest(zs[i], zs[j]) {
      if j < |xs| {
        assert zs[i] == xs[i] && zs[j] == xs[j];
      } else if i < |xs| {
        assert zs[i] in xs && zs[j] in ys;
      } else {
        assert zs[i] == ys[i - |xs|] && zs[j] == ys[j - |xs|];
      }
    }
  }

  /** Where the parts from child `j` on lie, and how their places begin. */
  lemma {:induction false} KidsBeyond(bd: Boundaries, msg: string, s: nat, e: nat, j: nat, k: nat,
                                      id: seq<int>, place: seq<int>, p: Part)
    requires s <= e <= |msg| && |id| == |place| && |id| + 1 < MAX_DEPTH
    requires k <= j <= |Kids(bd, msg, s, e)|
    requires p in WalkKids(bd, msg, Kids(bd, msg, s, e), j, k, id, place)
    ensures Under(p, id, place, s, e) && Locate(msg, s, e).hdrEnd <= p.loc.start
    ensures |place| < |p.place| && j + 1 <= p.place[|place|] <= |Kids(bd, msg, s, e)|
    ensures Kids(bd, msg, s, e)[p.place[|place|] - 1].start <= p.loc.start
    decreases |Kids(bd, msg, s, e)| - j
  {
    hide Kids, Under, Walk, WalkKids;
    var ps := Kids(bd, msg, s, e);
    KidsCases(bd, msg, ps, j, k, id, place, p);
    if ps[j].start < ps[j].end && p in Walk(bd, msg, ps[j].start, ps[j].end, id + [k + 1], place + [j + 1]) {
      WalkLeads(bd, msg, ps[j].start, ps[j].end, id + [k + 1], place + [j + 1], p);
      UnderUp(p, id, place, k + 1, j + 1, ps[j], s, e);
    } else {
      KidsBeyond(bd, msg, s, e, j + 1, if ps[j].start < ps[j].end then k + 1 else k, id, place, p);
    }
  }

  lemma {:induction false} WalkNests(bd: Boundaries, msg: string, s: nat, e: nat, id: seq<int>, place: seq<int>)
    requires s <= e <= |msg| && |id| == |place| < MAX_DEPTH
    ensures AllNest(Walk(bd, msg, s, e, id, place))
    decreases MAX_DEPTH - |id|, 1, 0
  {
    var root := Part(id, place, Locate(msg, s, e));
    if |id| + 1 < MAX_DEPTH {
      var sub := WalkKids(bd, msg, Kids(bd, msg, s, e), 0, 0, id, place);
      KidsNest(bd, msg, s, e, 0, 0, id, place);
      forall q | q in sub ensures Nest(root, q) {
        KidsBeyond(bd, msg, s, e, 0, 0, id, place, q);
      }
      NestJoin([root], sub);
    }
  }

  lemma {:induction false} KidsNest(bd: Boundaries, msg: string, s: nat, e: nat, j: nat, k: nat, id: seq<int>,
                                    place: seq<int>)
    requires s <= e <= |msg| && |id| == |place| && |id| + 1 < MAX_DEPTH
    requires k <= j <= |Kids(bd, msg, s, e)|
    ensures AllNest(WalkKids(bd, msg, Kids(bd, msg, s, e), j, k, id, place))
    decreases MAX_DEPTH - |id|, 0, |Kids(bd, msg, s, e)| - j
  {
    assert AllNest([]);
    hide Kids, Walk, AllNest;
    var ps := Kids(bd, msg, s, e);
    if j < |ps| {
      var full := ps[j].start < ps[j].end;
      KidsNest(bd, msg, s, e, j + 1, if full then k + 1 else k, id, place);
      if full {
        var xs := Walk(bd, msg, ps[j].start, ps[j].end, id + [k + 1], place + [j + 1]);
        var ys := WalkKids(bd, msg, ps, j + 1, k + 1, id, place);
        WalkNests(bd, msg, ps[j].start, ps[j].end, id + [k + 1], place + [j + 1]);
        forall x, y | x in xs && y in ys ensures Nest(x, y) {
          SiblingsNest(bd, msg, s, e, j, k, id, place, x, y);
        }
        NestJoin(xs, ys);
      }
    }
  }

  lemma SiblingsNest(bd: Boundaries, msg: string, s: nat, e: nat, j: nat, k: nat, id: seq<int>,
                     place: seq<int>, x: Part, y: Part)
    requires s <= e <= |msg| && |id| == |place| && |id| + 1 < MAX_DEPTH
    requires k <= j < |Kids(bd, msg, s, e)|
    requires var c := Kids(bd, msg, s, e)[j];
             && c.start < c.end && x in Walk(bd, msg, c.start, c.end, id + [k + 1], place + [j + 1])
    requires y in WalkKids(bd, msg, Kids(bd, msg, s, e), j + 1, k + 1, id, place)
    ensures Nest(x, y)
  {
    hide Kids, Walk, WalkKids;
    var ps := Kids(bd, msg, s, e);
    var c := ps[j];
    WalkLeads(bd, msg, c.start, c.end, id + [k + 1], place + [j + 1], x);
    assert x.loc.end <= c.end;
    hide Leads;
    UnderUp(x, id, place, k + 1, j + 1, c, s, e);
    KidsBeyond(bd, msg, s, e, j + 1, k + 1, id, place, y);
    hide Under;
    assert x.place[|place|] != y.place[|place|];
  }

  /** Every part lies in its ancestors' bodies, and parts that are not nested are
      disjoint and reported in order. */
  lemma ReportNests(bd: Boundaries, msg: string)
    ensures AllNest(Report(bd, msg))
    ensures forall p :: p in Report(bd, msg) ==> p.loc.start <= p.loc.hdrEnd <= p.loc.end <= |msg|
  {
    WalkNests(bd, msg, 0, |msg|, [], []);
    forall p | p in Report(bd, msg) ensures p.loc.start <= p.loc.hdrEnd <= p.loc.end <= |msg| {
      WalkLeads(bd, msg, 0, |msg|, [], [], p);
    }
  }

  // ---------------------------------------------------------------------
  // The loops
  // ---------------------------------------------------------------------

  method FindDelimiter(msg: string, pos: nat, end: nat, delim: string) returns (d: nat)
    requires pos <= end <= |msg| && delim != ""
    ensures d == Find(msg, pos, end, delim)
  {
    var i := pos;
    while i + |delim| <= end
      invariant pos <= i <= end && Find(msg, i, end, delim) == Find(msg, pos, end, delim)
    {
      if msg[i..i + |delim|] == delim { return i; }
      i := i + 1;
    }
    return end;
  }

  /** The step the three delimiter loops share. */
  method ScanPart(msg: string, pos: nat, end: nat, delim: string) returns (r: Option<Span>)
    requires pos <= end <= |msg| && delim != ""
    ensures r == NextPart(msg, pos, end, delim)
  {
    hide Find;
    var d := FindDelimiter(msg, pos, end, delim);
    if d == end { return None; }
    var q := d + |delim|;
    if q + 2 <= end && msg[q] == '-' && msg[q + 1] == '-' { return None; }
    var p := q;
    if p + 1 < end && msg[p] == '\r' && msg[p + 1] == '\n' {
      p := p + 2;
    } else if p < end && IsBreak(msg[p]) {
      p := p + 1;
    }
    assert p == SkipBreak(msg, q, end);
    hide SkipBreak;
    var e := FindDelimiter(msg, p, end, delim);
    e := TrimBreaks(msg, p, e);
    return Some(Span(p, e));
  }

  method TrimBreaks(msg: string, p: nat, full: nat) returns (e: nat)
    requires p <= full <= |msg|
    ensures e == Trim(msg, p, full)
  {
    e := full;
    while e > p && IsBreak(msg[e - 1])
      invariant p <= e <= full && Trim(msg, p, e) == Trim(msg, p, full)
    {
      e := e - 1;
    }
  }

  /** mime_kth_part: the k-th part, counting empty ones. */
  method KthPart(msg: string, bs: nat, be: nat, delim: string, k: int) returns (r: Option<Span>)
    requires bs <= be <= |msg| && delim != ""
    ensures var ps := Parts(msg, bs, be, delim);
            r == if 1 <= k <= |ps| then Some(ps[k - 1]) else None
  {
    var pos, idx := bs, 0;
    ghost var seen: seq<Span> := [];
    hide NextPart;
    while true
      invariant bs <= pos <= be && idx == |seen| && !(1 <= k <= idx)
      invariant Parts(msg, bs, be, delim) == seen + Parts(msg, pos, be, delim)
      decreases be - pos
    {
      var s := ScanPart(msg, pos, be, delim);
      if s.None? { return None; }
      idx := idx + 1;
      assert Parts(msg, bs, be, delim)[idx - 1] == s.value;
      if idx == k { return s; }
      seen := seen + [s.value];
      pos := s.value.end;
    }
  }

  lemma KidsOf(bd: Boundaries, msg: string, s: nat, e: nat)
    requires s <= e <= |msg|
    ensures var he := Locate(msg, s, e).hdrEnd;
            match bd(msg[s..he])
            case None => Kids(bd, msg, s, e) == []
            case Some(b) => Kids(bd, msg, s, e) == Parts(msg, he, e, "--" + b)
  {
  }

  /** imapd_mime_part: one component of the path after another. */
  method MimePart(bd: Boundaries, msg: string, path: seq<int>) returns (r: Option<Loc>)
    ensures r == Resolve(bd, msg, 0, |msg|, path, 0)
  {
    hide Kids, Parts, Locate;
    var cs: nat, ce: nat := 0, |msg|;
    var loc := Locate(msg, 0, |msg|);
    for i := 0 to |path|
      invariant cs <= ce <= |msg| && loc == Locate(msg, cs, ce)
      invariant Resolve(bd, msg, cs, ce, path, i) == Resolve(bd, msg, 0, |msg|, path, 0)
    {
      KidsOf(bd, msg, cs, ce);
      var b := bd(msg[cs..loc.hdrEnd]);
      if b.None? { return None; }
      var s := KthPart(msg, loc.hdrEnd, ce, "--" + b.value, path[i]);
      if s.None? { return None; }
      cs, ce := s.value.start, s.value.end;
      loc := Locate(msg, cs, ce);
    }
    return Some(loc);
  }

  /** mime_walk: report a part, then its children. */
  method WalkParts(bd: Boundaries, msg: string, s: nat, e: nat, id: seq<int>,
                   ghost place: seq<int>) returns (r: seq<(seq<int>, Loc)>)
    requires s <= e <= |msg| && |id| < MAX_DEPTH
    ensures r == Shown(Walk(bd, msg, s, e, id, place))
    decreases MAX_DEPTH - |id|, 1
  {
    var loc := Locate(msg, s, e);
    r := [(id, loc)];
    ghost var root := Part(id, place, loc);
    assert Shown([root]) == r && Shown([root] + []) == r;
    KidsOf(bd, msg, s, e);
    hide WalkKids, Kids, Parts, Locate;
    var b := bd(msg[s..loc.hdrEnd]);
    if |id| + 1 >= MAX_DEPTH { return; }
    if b.None? {
      KidsDone(bd, msg, [], 0, id, place);
      assert Shown([root]) + [] == r;
      ShownJoin([root], WalkKids(bd, msg, [], 0, 0, id, place));
      return;
    }
    var sub := WalkChildren(bd, msg, loc.hdrEnd, e, "--" + b.value, id, place);
    ShownJoin([root], WalkKids(bd, msg, Kids(bd, msg, s, e), 0, 0, id, place));
    r := r + sub;
  }

  /** The children's loop of mime_walk, skipping empty parts. */
  method WalkChildren(bd: Boundaries, msg: string, bs: nat, e: nat, delim: string, id: seq<int>,
                      ghost place: seq<int>) returns (r: seq<(seq<int>, Loc)>)
    requires bs <= e <= |msg| && delim != "" && |id| + 1 < MAX_DEPTH
    requires InOrder(Parts(msg, bs, e, delim), bs, e)
    ensures r == Shown(WalkKids(bd, msg, Parts(msg, bs, e, delim), 0, 0, id, place))
    decreases MAX_DEPTH - |id|, 0
  {
    var pos: nat, k: nat := bs, 0;
    ghost var ps, j: nat := Parts(msg, bs, e, delim), 0;
    ghost var all := Shown(WalkKids(bd, msg, ps, 0, 0, id, place));
    r := [];
    assert ps[0..] == ps;
    hide Walk, WalkKids, NextPart, Parts, Shown;
    while true
      invariant bs <= pos <= e && j <= |ps| && ps[j..] == Parts(msg, pos, e, delim)
      invariant r + Shown(WalkKids(bd, msg, ps, j, k, id, place)) == all
      decreases e - pos
    {
      PartsUnfold(msg, pos, e, delim);
      var c := ScanPart(msg, pos, e, delim);
      if c.None? {
        KidsDone(bd, msg, ps, k, id, place);
        return;
      }
      TailStep(ps, j, c.value, Parts(msg, c.value.end, e, delim));
      KidsUnfold(bd, msg, ps, j, k, id, place);
      if c.value.end > c.value.start {
        var sub := WalkParts(bd, msg, c.value.start, c.value.end, id + [k + 1], place + [j + 1]);
        Assoc(r, sub, Shown(WalkKids(bd, msg, ps, j + 1, k + 1, id, place)));
        r := r + sub;
        k := k + 1;
      }
      pos := c.value.end;
      j := j + 1;
    }
  }

  lemma TailStep(ps: seq<Span>, j: nat, x: Span, rest: seq<Span>)
    requires j <= |ps| && ps[j..] == [x] + rest
    ensures j < |ps| && ps[j] == x && ps[j + 1..] == rest
  {
    assert ps[j] == ps[j..][0] && ps[j + 1..] == ps[j..][1..];
  }

  lemma PartsUnfold(msg: string, pos: nat, end: nat, delim: string)
    requires pos <= end <= |msg| && delim != ""
    ensures var n := NextPart(msg, pos, end, delim);
            Parts(msg, pos, end, delim) == if n.None? then [] else [n.value] + Parts(msg, n.value.end, end, delim)
  {
  }

  lemma KidsDone(bd: Boundaries, msg: string, ps: seq<Span>, k: nat, id: seq<int>, place: seq<int>)
    requires |id| + 1 < MAX_DEPTH && forall i :: 0 <= i < |ps| ==> ps[i].start <= ps[i].end <= |msg|
    ensures Shown(WalkKids(bd, msg, ps, |ps|, k, id, place)) == []
  {
  }

  lemma KidsUnfold(bd: Boundaries, msg: string, ps: seq<Span>, j: nat, k: nat, id: seq<int>, place: seq<int>)
    requires j < |ps| && |id| + 1 < MAX_DEPTH
    requires forall i :: 0 <= i < |ps| ==> ps[i].start <= ps[i].end <= |msg|
    ensures Shown(WalkKids(bd, msg, ps, j, k, id, place))
         == if ps[j].start < ps[j].end
            then Shown(Walk(bd, msg, ps[j].start, ps[j].end, id + [k + 1], place + [j + 1]))
                 + Shown(WalkKids(bd, msg, ps, j + 1, k + 1, id, place))
            else Shown(WalkKids(bd, msg, ps, j + 1, k, id, place))
  {
    if ps[j].start < ps[j].end {
      ShownJoin(Walk(bd, msg, ps[j].start, ps[j].end, id + [k + 1], place + [j + 1]),
                WalkKids(bd, msg, ps, j + 1, k + 1, id, place));
    }
  }

  /** What the callback sees of the parts. */
  function Shown(ps: seq<Part>): seq<(seq<int>, Loc)> {
    seq(|ps|, i requires 0 <= i < |ps| => (ps[i].id, ps[i].loc))
  }

  lemma ShownJoin(xs: seq<Part>, ys: seq<Part>)
    ensures Shown(xs + ys) == Shown(xs) + Shown(ys)
  {
  }

  // ---------------------------------------------------------------------
  // A misnumbered part
  // ---------------------------------------------------------------------

  /** A body with an empty part before a full one. */
  const EMPTY_FIRST: string := "--b\n--b\nx"

  /** A header block that declares its boundary. */
  const MIXED: string := "Content-Type: " + "multipart/mixed; " + "boundary=b"

  lemma EmptyFirstParts(h: string)
    ensures var m, n := h + EMPTY_FIRST, |h|;
            Parts(m, n, n + 9, "--b") == [Span(n + 4, n + 4), Span(n + 8, n + 9)]
  {
    var m, d, n := h + EMPTY_FIRST, "--b", |h|;
    assert m[n..n + 3] == d && m[n + 4..n + 7] == d && m[n + 3] == m[n + 7] == '\n' && m[n + 8] == 'x';
    assert Find(m, n, n + 9, d) == n && Find(m, n + 4, n + 9, d) == n + 4;
    assert NextPart(m, n, n + 9, d) == Some(Span(n + 4, n + 4));
    assert Find(m, n + 8, n + 9, d) == n + 9 && Find(m, n + 9, n + 9, d) == n + 9;
    assert NextPart(m, n + 4, n + 9, d) == Some(Span(n + 8, n + 9));
    assert NextPart(m, n + 9, n + 9, d) == None;
    assert Parts(m, n + 9, n + 9, d) == [];
    assert Parts(m, n + 4, n + 9, d) == [Span(n + 8, n + 9)];
  }

  lemma {:induction false} NoCrNoCrLf(t: string, i: nat)
    requires i <= |t| && '\r' !in t
    ensures CrLfEnd(t, i) == |t| + 1
    decreases |t| - i
  {
    if i + 4 <= |t| {
      assert t[i] in t && t[i..i + 4][0] == t[i];
      NoCrNoCrLf(t, i + 1);
    }
  }

  /** A header of one line ends with its empty line. */
  lemma OneLineHeader(line: string, body: string)
    requires '\n' !in line && '\r' !in line + body
    ensures HeaderEnd(line + "\n\n" + body) == |line| + 2
  {
    NoCrNoCrLf(line + "\n\n" + body, 0);
    FirstEmptyLine(line, body, 0);
  }

  lemma {:induction false} FirstEmptyLine(line: string, body: string, i: nat)
    requires '\n' !in line && i <= |line|
    ensures LfEnd(line + "\n\n" + body, i) == |line| + 2
    decreases |line| - i
  {
    var t := line + "\n\n" + body;
    if i < |line| {
      assert t[i..i + 2][0] == line[i] && line[i] in line;
      FirstEmptyLine(line, body, i + 1);
    } else {
      assert t[i..i + 2] == "\n\n";
    }
  }

  lemma TinyHeaders()
    ensures HeaderEnd("x") == 1 && HeaderEnd("") == 0
  {
    NoCrNoCrLf("x", 0);
    NoCrNoCrLf("", 0);
  }

  lemma KidsAre(bd: Boundaries, m: string, b: string, n: nat, ps: seq<Span>)
    requires n <= |m| && HeaderEnd(m) == n && bd(m[..n]) == Some(b) && Parts(m, n, |m|, "--" + b) == ps
    ensures Kids(bd, m, 0, |m|) == ps
  {
    assert m[0..|m|] == m && m[0..n] == m[..n];
    hide Parts, HeaderEnd;
  }

  /** Of an empty part and a full one, the full one is reported first. */
  lemma SecondIsReportedFirst(bd: Boundaries, m: string, c: Span, d: Span)
    requires Kids(bd, m, 0, |m|) == [c, d] && c.start == c.end && d.start < d.end <= |m|
    ensures Part([1], [2], Locate(m, d.start, d.end)) in Report(bd, m)
    ensures c.end <= |m| && Resolve(bd, m, 0, |m|, [1], 0) == Some(Locate(m, c.start, c.end))
  {
    hide Kids, Locate, Walk;
    var ps := [c, d];
    assert ps[0] == c;
    WalkUnfold(bd, m, d.start, d.end, [1], [2]);
    WalkUnfold(bd, m, 0, |m|, [], []);
    assert [] + [1] == [1] && [] + [2] == [2];
    KidsSkip(bd, m, ps, 0, 0, [], []);
    KidsTake(bd, m, ps, 1, 0, [], []);
    hide WalkKids;
  }

  lemma WalkUnfold(bd: Boundaries, msg: string, s: nat, e: nat, id: seq<int>, place: seq<int>)
    requires s <= e <= |msg| && |id| + 1 < MAX_DEPTH
    ensures Part(id, place, Locate(msg, s, e)) in Walk(bd, msg, s, e, id, place)
    ensures forall p :: p in WalkKids(bd, msg, Kids(bd, msg, s, e), 0, 0, id, place) ==>
                          p in Walk(bd, msg, s, e, id, place)
  {
    hide Kids, Locate, WalkKids;
  }

  lemma KidsSkip(bd: Boundaries, msg: string, ps: seq<Span>, j: nat, k: nat, id: seq<int>, place: seq<int>)
    requires j < |ps| && |id| + 1 < MAX_DEPTH && ps[j].start == ps[j].end
    requires forall i :: 0 <= i < |ps| ==> ps[i].start <= ps[i].end <= |msg|
    ensures WalkKids(bd, msg, ps, j, k, id, place) == WalkKids(bd, msg, ps, j + 1, k, id, place)
  {
    hide Walk;
  }

  lemma KidsTake(bd: Boundaries, msg: string, ps: seq<Span>, j: nat, k: nat, id: seq<int>, place: seq<int>)
    requires j < |ps| && |id| + 1 < MAX_DEPTH && ps[j].start < ps[j].end
    requires forall i :: 0 <= i < |ps| ==> ps[i].start <= ps[i].end <= |msg|
    ensures forall p :: p in Walk(bd, msg, ps[j].start, ps[j].end, id + [k + 1], place + [j + 1]) ==>
                          p in WalkKids(bd, msg, ps, j, k, id, place)
  {
    hide Walk;
  }

  /** Behind any header that declares the boundary, the second part is reported as
      the first, and that number resolves to the empty part. */
  lemma EmptyPartMisleads(bd: Boundaries, h: string)
    requires HeaderEnd(h + EMPTY_FIRST) == |h| && bd(h) == Some("b")
    ensures var m, n := h + EMPTY_FIRST, |h|;
            var p := Part([1], [2], Loc(n + 8, n + 9, n + 9));
            && p in Report(bd, m)
            && Resolve(bd, m, 0, |m|, p.id, 0) == Some(Loc(n + 4, n + 4, n + 4))
  {
    var m, n := h + EMPTY_FIRST, |h|;
    EmptyFirstParts(h);
    TinyHeaders();
    assert "--" + "b" == "--b" && m[..n] == h && |m| == n + 9;
    assert m[n + 8..n + 9] == "x" && m[n + 4..n + 4] == "";
    hide Kids, Parts, HeaderEnd, Report, Resolve, EMPTY_FIRST;
    KidsAre(bd, m, "b", n, [Span(n + 4, n + 4), Span(n + 8, n + 9)]);
    SecondIsReportedFirst(bd, m, Span(n + 4, n + 4), Span(n + 8, n + 9));
  }

  lemma MixedIsOneLine()
    ensures |MIXED| == 41 && '\n' !in MIXED && '\r' !in MIXED + EMPTY_FIRST
  {
    var a, b, c := "Content-Type: ", "multipart/mixed; ", "boundary=b";
    assert '\n' !in a && '\r' !in a && '\n' !in b && '\r' !in b && '\n' !in c && '\r' !in c;
    assert '\r' !in EMPTY_FIRST;
  }

  /** One such message. */
  lemma EmptyPartExample(bd: Boundaries)
    requires bd(MIXED + "\n\n") == Some("b")
    ensures var m := MIXED + "\n\n" + EMPTY_FIRST;
            var p := Part([1], [2], Loc(51, 52, 52));
            && p in Report(bd, m)
            && Resolve(bd, m, 0, |m|, p.id, 0) == Some(Loc(47, 47, 47))
  {
    MixedIsOneLine();
    hide MIXED, EMPTY_FIRST, HeaderEnd, Report, Resolve;
    OneLineHeader(MIXED, EMPTY_FIRST);
    EmptyPartMisleads(bd, MIXED + "\n\n");
  }

  // ---------------------------------------------------------------------
  // Printed bodies
  // ---------------------------------------------------------------------

  /** A multipart body as it is written: a preamble, each text behind a delimiter
      line, a closing delimiter and an epilogue. */
  function Body(pre: string, texts: seq<string>, nl: string, delim: string, epi: string): string
    decreases texts
  {
    if texts == [] then pre + (delim + "--" + epi)
    else pre + (delim + nl + texts[0] + Body(nl, texts[1..], nl, delim, epi))
  }

  /** Where the texts stand, the first delimiter standing at `at`. */
  function Spans(at: nat, texts: seq<string>, nl: string, delim: string): seq<Span>
    decreases texts
  {
    if texts == [] then []
    else
      var s := at + |delim| + |nl|;
      [Span(s, s + |texts[0]|)] + Spans(s + |texts[0]| + |nl|, texts[1..], nl, delim)
  }

  predicate DelimAt(s: string, i: nat, delim: string) {
    i + |delim| <= |s| && s[i..i + |delim|] == delim
  }

  /** The first delimiter of `s + delim` stands behind `s`. */
  ghost predicate Clear(s: string, delim: string) {
    forall i :: 0 <= i < |s| ==> !DelimAt(s + delim, i, delim)
  }

  /** A text that can be told from what is around it: no delimiter in it, and no
      line break at its end. */
  ghost predicate PartText(text: string, delim: string) {
    && (forall i :: 0 <= i < |text| ==> !DelimAt(text, i, delim))
    && (text != "" ==> !IsBreak(text[|text| - 1]))
  }

  predicate LineBreak(nl: string) {
    nl == "\r\n" || nl == "\n"
  }

  predicate OneLineDelim(delim: string) {
    delim != "" && forall i :: 0 <= i < |delim| ==> !IsBreak(delim[i])
  }

  lemma {:induction false} FindIs(msg: string, i: nat, end: nat, delim: string, k: nat)
    requires i <= k && k + |delim| <= end <= |msg| && delim != "" && DelimAt(msg, k, delim)
    requires forall j :: i <= j < k ==> !DelimAt(msg, j, delim)
    ensures Find(msg, i, end, delim) == k
    decreases k - i
  {
    if i < k {
      assert !DelimAt(msg, i, delim);
      FindIs(msg, i + 1, end, delim, k);
    }
  }

  /** The first delimiter where `s + delim` stands. */
  lemma ClearAt(msg: string, i: nat, s: string, delim: string)
    requires Clear(s, delim) && TextAt(msg, i, s + delim)
    ensures DelimAt(msg, i + |s|, delim)
    ensures forall j :: i <= j < i + |s| ==> !DelimAt(msg, j, delim)
  {
    var t := s + delim;
    assert t[|s|..|s| + |delim|] == delim;
    DelimMoves(msg, i, t, |s|, delim);
    forall j | i <= j < i + |s| ensures !DelimAt(msg, j, delim) {
      DelimMoves(msg, i, t, j - i, delim);
      assert !DelimAt(t, j - i, delim);
    }
  }

  /** A delimiter in a text is one where the text stands. */
  lemma DelimMoves(msg: string, i: nat, t: string, k: nat, delim: string)
    requires TextAt(msg, i, t) && k + |delim| <= |t|
    ensures DelimAt(msg, i + k, delim) == DelimAt(t, k, delim)
  {
    TextAtSlice(msg, i, t);
    assert msg[i..i + |t|][k..k + |delim|] == msg[i + k..i + k + |delim|];
  }

  /** No delimiter goes over a line break. */
  lemma BreakInside(s: string, i: nat, delim: string, k: nat)
    requires k < |delim| && i + |delim| <= |s| && OneLineDelim(delim) && IsBreak(s[i + k])
    ensures !DelimAt(s, i, delim)
  {
    assert s[i..i + |delim|][k] == s[i + k];
  }

  /** Text and line break hold no delimiter, nor does one start in them. */
  lemma ClearText(text: string, nl: string, delim: string)
    requires PartText(text, delim) && LineBreak(nl) && OneLineDelim(delim)
    ensures Clear(text + nl, delim)
  {
    var s := text + nl;
    forall i | 0 <= i < |s| ensures !DelimAt(s + delim, i, delim) {
      if i + |delim| <= |text| {
        assert (s + delim)[i..i + |delim|] == text[i..i + |delim|];
        assert !DelimAt(text, i, delim);
      } else if i + |delim| <= |s + delim| {
        BreakInside(s + delim, i, delim, (if i > |text| then i else |text|) - i);
      }
    }
  }

  /** Trimming stops at the end of the text. */
  lemma TrimIs(msg: string, s: nat, e: nat, end: nat)
    requires s <= e <= end <= |msg| && (s < e ==> !IsBreak(msg[e - 1]))
    requires end <= e + 2 && forall k :: e <= k < end ==> IsBreak(msg[k])
    ensures Trim(msg, s, end) == e
  {
    assert Trim(msg, s, e) == e;
    if e < end { assert end > s && Trim(msg, s, e + 1) == e; }
  }

  /** The part between two delimiters. */
  lemma PartBetween(msg: string, pos: nat, end: nat, delim: string, d: nat, nl: string, n: nat)
    requires pos <= d && LineBreak(nl) && delim != "" && end <= |msg|
    requires d + |delim| + |nl| + n + |nl| + |delim| <= end
    requires DelimAt(msg, d, delim) && forall j :: pos <= j < d ==> !DelimAt(msg, j, delim)
    requires var s := d + |delim| + |nl|;
             && msg[d + |delim|..s] == nl && msg[s + n..s + n + |nl|] == nl
             && DelimAt(msg, s + n + |nl|, delim)
             && (forall j :: s <= j < s + n + |nl| ==> !DelimAt(msg, j, delim))
             && (n > 0 ==> !IsBreak(msg[s + n - 1]))
    ensures var s := d + |delim| + |nl|;
            NextPart(msg, pos, end, delim) == Some(Span(s, s + n))
  {
    hide Find, SkipBreak, Trim, DelimAt, LineBreak, IsBreak;
    var q := d + |delim|;
    var s := q + |nl|;
    var e := s + n;
    FindIs(msg, pos, end, delim, d);
    FindIs(msg, s, end, delim, e + |nl|);
    SkipIs(msg, q, end, nl);
    NotDash(msg, q, nl);
    TrimBreak(msg, s, e, nl);
  }

  lemma TrimBreak(msg: string, s: nat, e: nat, nl: string)
    requires s <= e && e + |nl| <= |msg| && LineBreak(nl) && msg[e..e + |nl|] == nl
    requires s < e ==> !IsBreak(msg[e - 1])
    ensures Trim(msg, s, e + |nl|) == e
  {
    assert forall k :: e <= k < e + |nl| ==> msg[k] == msg[e..e + |nl|][k - e];
    TrimIs(msg, s, e, e + |nl|);
  }

  lemma SkipIs(msg: string, q: nat, end: nat, nl: string)
    requires LineBreak(nl) && q + |nl| < end <= |msg| && msg[q..q + |nl|] == nl
    ensures SkipBreak(msg, q, end) == q + |nl|
  {
    assert msg[q] == msg[q..q + |nl|][0] && (|nl| == 2 ==> msg[q + 1] == msg[q..q + |nl|][1]);
  }

  lemma NotDash(msg: string, q: nat, nl: string)
    requires LineBreak(nl) && q + |nl| <= |msg| && msg[q..q + |nl|] == nl
    ensures msg[q] != '-'
  {
    assert msg[q] == msg[q..q + |nl|][0];
  }

  /** The first text of a printed body and what is around it. */
  lemma FirstText(msg: string, pos: nat, pre: string, texts: seq<string>, nl: string, delim: string, epi: string)
    requires texts != [] && TextAt(msg, pos, Body(pre, texts, nl, delim, epi))
    ensures var d := pos + |pre|;
            var s := d + |delim| + |nl|;
            && |Body(pre, texts, nl, delim, epi)|
               == |pre| + |delim| + |nl| + |texts[0]| + |Body(nl, texts[1..], nl, delim, epi)|
            && TextAt(msg, pos, pre + delim) && TextAt(msg, d + |delim|, nl) && TextAt(msg, s, texts[0])
            && TextAt(msg, s, texts[0] + nl + delim) && TextAt(msg, s + |texts[0]|, nl)
            && TextAt(msg, s + |texts[0]|, Body(nl, texts[1..], nl, delim, epi))
            && |nl| + |delim| <= |Body(nl, texts[1..], nl, delim, epi)|
  {
    var text, more := texts[0], Body(nl, texts[1..], nl, delim, epi);
    assert Body(pre, texts, nl, delim, epi) == pre + (delim + nl + text + more);
    var rest := BodyOpens(nl, texts[1..], nl, delim, epi);
    hide TextAt, Body;
    var d := pos + |pre|;
    var s := d + |delim| + |nl|;
    TextAtJoin(msg, pos, pre, delim + nl + text + more);
    TextAtJoin(msg, d, delim + nl + text, more);
    TextAtJoin(msg, d, delim + nl, text);
    TextAtJoin(msg, d, delim, nl);
    TextAtJoin(msg, pos, pre, delim);
    TextAtJoin(msg, s + |text|, nl, delim + rest);
    TextAtJoin(msg, s + |text| + |nl|, delim, rest);
    TextAtJoin(msg, s, text, nl);
    TextAtJoin(msg, s, text + nl, delim);
  }

  /** The first part of a printed body is its first text. */
  lemma FirstOfBody(msg: string, pos: nat, pre: string, texts: seq<string>, nl: string, delim: string, epi: string)
    requires Clear(pre, delim) && LineBreak(nl) && OneLineDelim(delim)
    requires texts != [] && PartText(texts[0], delim) && TextAt(msg, pos, Body(pre, texts, nl, delim, epi))
    ensures var end, s := pos + |Body(pre, texts, nl, delim, epi)|, pos + |pre| + |delim| + |nl|;
            end <= |msg| && pos <= end && NextPart(msg, pos, end, delim) == Some(Span(s, s + |texts[0]|))
  {
    hide Clear, PartText, TextAt, Body, NextPart;
    var text, d, end := texts[0], pos + |pre|, pos + |Body(pre, texts, nl, delim, epi)|;
    var s := d + |delim| + |nl|;
    TextAtSlice(msg, pos, Body(pre, texts, nl, delim, epi));
    FirstText(msg, pos, pre, texts, nl, delim, epi);
    ClearAt(msg, pos, pre, delim);
    ClearText(text, nl, delim);
    ClearAt(msg, s, text + nl, delim);
    TextAtSlice(msg, d + |delim|, nl);
    TextAtSlice(msg, s + |text|, nl);
    TextAtSlice(msg, s, text);
    LastOfText(msg, s, text, delim);
    hide LineBreak, OneLineDelim, DelimAt;
    PartBetween(msg, pos, end, delim, d, nl, |text|);
  }

  /** Reading a printed body gives back where its texts stand, each of them and
      nothing behind the closing delimiter, whatever stands around the body. */
  lemma {:induction false} PartsOfBody(msg: string, pos: nat, pre: string, texts: seq<string>, nl: string,
                                       delim: string, epi: string)
    requires Clear(pre, delim) && LineBreak(nl) && OneLineDelim(delim)
    requires forall t :: t in texts ==> PartText(t, delim)
    requires TextAt(msg, pos, Body(pre, texts, nl, delim, epi))
    ensures var end := pos + |Body(pre, texts, nl, delim, epi)|;
            end <= |msg| && Parts(msg, pos, end, delim) == Spans(pos + |pre|, texts, nl, delim)
    decreases texts
  {
    hide Clear, PartText, TextAt, Body, NextPart, LineBreak, OneLineDelim;
    if texts == [] {
      NoPart(msg, pos, pre, nl, delim, epi);
    } else {
      FirstOfBody(msg, pos, pre, texts, nl, delim, epi);
      FirstText(msg, pos, pre, texts, nl, delim, epi);
      ClearBreak(nl, delim);
      PartsOfBody(msg, pos + |pre| + |delim| + |nl| + |texts[0]|, nl, texts[1..], nl, delim, epi);
    }
  }

  lemma ClearBreak(nl: string, delim: string)
    requires LineBreak(nl) && OneLineDelim(delim)
    ensures Clear(nl, delim) && delim != ""
  {
    ClearText("", nl, delim);
    assert "" + nl == nl;
  }

  lemma LastOfText(msg: string, s: nat, text: string, delim: string)
    requires PartText(text, delim) && s + |text| <= |msg| && msg[s..s + |text|] == text
    ensures text != "" ==> !IsBreak(msg[s + |text| - 1])
  {
    if text != "" { assert msg[s + |text| - 1] == text[|text| - 1]; }
  }

  lemma BodyOpens(pre: string, texts: seq<string>, nl: string, delim: string, epi: string) returns (rest: string)
    ensures Body(pre, texts, nl, delim, epi) == pre + (delim + rest)
  {
    rest := if texts == [] then "--" + epi else nl + texts[0] + Body(nl, texts[1..], nl, delim, epi);
    if texts == [] {
      assert delim + "--" + epi == delim + rest;
    } else {
      assert delim + nl + texts[0] + Body(nl, texts[1..], nl, delim, epi) == delim + rest;
    }
  }

  /** Nothing is read behind a closing delimiter. */
  lemma NoPart(msg: string, pos: nat, pre: string, nl: string, delim: string, epi: string)
    requires Clear(pre, delim) && OneLineDelim(delim) && TextAt(msg, pos, Body(pre, [], nl, delim, epi))
    ensures var end := pos + |Body(pre, [], nl, delim, epi)|;
            end <= |msg| && Parts(msg, pos, end, delim) == []
  {
    hide TextAt, Body, Clear;
    var end, d := pos + |Body(pre, [], nl, delim, epi)|, pos + |pre|;
    TextAtEnd(msg, pos, Body(pre, [], nl, delim, epi));
    BodyCloses(pre, nl, delim, epi);
    TextAtJoin(msg, pos, pre, delim + "--" + epi);
    TextAtJoin(msg, d, delim + "--", epi);
    TextAtJoin(msg, d, delim, "--");
    TextAtJoin(msg, pos, pre, delim);
    ClearAt(msg, pos, pre, delim);
    FindIs(msg, pos, end, delim, d);
    DashesAt(msg, d + |delim|);
  }

  lemma BodyCloses(pre: string, nl: string, delim: string, epi: string)
    ensures Body(pre, [], nl, delim, epi) == pre + (delim + "--" + epi)
  {
  }

  lemma DashesAt(msg: string, q: nat)
    requires TextAt(msg, q, "--")
    ensures q + 2 <= |msg| && msg[q] == '-' && msg[q + 1] == '-'
  {
    assert msg[q + 0] == "--"[0] && msg[q + 1] == "--"[1];
  }

  lemma {:induction false} SpansHoldTexts(msg: string, pos: nat, pre: string, texts: seq<string>, nl: string,
                                          delim: string, epi: string)
    requires TextAt(msg, pos, Body(pre, texts, nl, delim, epi))
    ensures var ps := Spans(pos + |pre|, texts, nl, delim);
            && |ps| == |texts|
            && forall k :: 0 <= k < |ps| ==>
                 ps[k].start <= ps[k].end <= |msg| && msg[ps[k].start..ps[k].end] == texts[k]
    decreases texts
  {
    hide TextAt, Body;
    if texts != [] {
      FirstText(msg, pos, pre, texts, nl, delim, epi);
      var s := pos + |pre| + |delim| + |nl|;
      TextAtSlice(msg, s, texts[0]);
      SpansHoldTexts(msg, s + |texts[0]|, nl, texts[1..], nl, delim, epi);
    }
  }

  /** So in a printed multipart message the number k leads to the k-th text, header
      and all, and a number beyond the last leads nowhere. */
  lemma PrintedPartResolves(bd: Boundaries, h: string, pre: string, texts: seq<string>, nl: string, b: string,
                            epi: string, k: nat)
    requires Clear(pre, "--" + b) && LineBreak(nl) && OneLineDelim("--" + b)
    requires forall t :: t in texts ==> PartText(t, "--" + b)
    requires var msg := h + Body(pre, texts, nl, "--" + b, epi);
             HeaderEnd(msg) == |h| && bd(h) == Some(b)
    ensures var msg := h + Body(pre, texts, nl, "--" + b, epi);
            var l := Resolve(bd, msg, 0, |msg|, [k + 1], 0);
            if k < |texts| then
              && l.Some? && l.value.start <= l.value.end <= |msg| && msg[l.value.start..l.value.end] == texts[k]
              && l.value.hdrEnd == l.value.start + HeaderEnd(texts[k])
            else l == None
  {
    hide TextAt, Body, Spans, Resolve, Kids, HeaderEnd, Clear, PartText, LineBreak, OneLineDelim;
    var delim := "--" + b;
    var body := Body(pre, texts, nl, delim, epi);
    TextBehind(h, body);
    KidsOfBody(bd, h, pre, texts, nl, b, epi);
    SpansHoldTexts(h + body, |h|, pre, texts, nl, delim, epi);
    OneStep(bd, h + body, k);
  }

  lemma TextBehind(h: string, x: string)
    ensures TextAt(h + x, |h|, x) && (h + x)[..|h|] == h
  {
  }

  /** The parts of a printed multipart message. */
  lemma KidsOfBody(bd: Boundaries, h: string, pre: string, texts: seq<string>, nl: string, b: string, epi: string)
    requires Clear(pre, "--" + b) && LineBreak(nl) && OneLineDelim("--" + b)
    requires forall t :: t in texts ==> PartText(t, "--" + b)
    requires var msg := h + Body(pre, texts, nl, "--" + b, epi);
             HeaderEnd(msg) == |h| && bd(h) == Some(b)
    ensures var msg := h + Body(pre, texts, nl, "--" + b, epi);
            Kids(bd, msg, 0, |msg|) == Spans(|h| + |pre|, texts, nl, "--" + b)
  {
    hide TextAt, Body, Spans, Kids, HeaderEnd, Clear, PartText, LineBreak, OneLineDelim, Parts;
    var delim := "--" + b;
    var body := Body(pre, texts, nl, delim, epi);
    TextBehind(h, body);
    PartsOfBody(h + body, |h|, pre, texts, nl, delim, epi);
    KidsAre(bd, h + body, b, |h|, Spans(|h| + |pre|, texts, nl, delim));
  }

  lemma OneStep(bd: Boundaries, msg: string, k: nat)
    ensures var ps := Kids(bd, msg, 0, |msg|);
            Resolve(bd, msg, 0, |msg|, [k + 1], 0)
            == if k < |ps| then Some(Locate(msg, ps[k].start, ps[k].end)) else None
  {
    hide Kids, Locate;
    var ps := Kids(bd, msg, 0, |msg|);
    if k < |ps| {
      var s := ps[k];
      assert Resolve(bd, msg, s.start, s.end, [k + 1], 1) == Some(Locate(msg, s.start, s.end));
    }
  }
}
