/** The DATA phase of mail ingestion: finding the end-of-message line in a buffer
    that grows, without scanning the old bytes again. */
module DataScan {
  import opened Common

  /** The longest accepted line, without its line end. */
  const LINE_MAX: nat := 1001

  datatype Verdict = Found(end: nat, termLen: nat) | Bad | More(resume: nat)

  /** How the line that starts at `ls` ends: with its content ending at `content`
      and the next line at `next`; with a bare CR as the last byte of the buffer;
      or not yet. */
  datatype LineEnd = Ended(content: nat, next: nat) | PendingCr(content: nat) | Open

  function EndOfLine(b: string, ls: nat, i: nat): (e: LineEnd)
    requires ls <= i <= |b|
    ensures e.Ended? ==> ls <= e.content < e.next <= |b|
    ensures e.PendingCr? ==> ls <= e.content == |b| - 1
    decreases |b| - i
  {
    if i == |b| then Open
    else if b[i] == '\n' then
      Ended(if i > ls && b[i - 1] == '\r' then i - 1 else i, i + 1)
    else if b[i] == '\r' then
      if i + 1 == |b| then PendingCr(i)
      else if b[i + 1] == '\n' then EndOfLine(b, ls, i + 1)
      else Ended(i, i + 1)
    else EndOfLine(b, ls, i + 1)
  }

  predicate IsTerminator(b: string, ls: nat, content: nat)
    requires ls <= content <= |b|
  {
    content - ls == 1 && b[ls] == '.'
  }

  /** The scan from a line start: the first line "." ends the message, an overlong
      line or buffer is refused, an unfinished line is looked at again later. */
  function Scan(b: string, ls: nat, maxTotal: nat): (v: Verdict)
    requires ls <= |b|
    ensures v.More? ==> ls <= v.resume <= |b|
    ensures v.Found? ==> ls <= v.end && v.end + v.termLen <= |b|
    decreases |b| - ls
  {
    match EndOfLine(b, ls, ls)
    case Ended(c, next) =>
      if c - ls > LINE_MAX then Bad
      else if IsTerminator(b, ls, c) then Found(ls, next - ls)
      else Scan(b, next, maxTotal)
    case PendingCr(c) =>
      if c - ls > LINE_MAX then Bad
      else if IsTerminator(b, ls, c) then Found(ls, c + 1 - ls)
      else if |b| > maxTotal then Bad
      else More(ls)
    case Open =>
      if |b| > maxTotal || |b| - ls > LINE_MAX then Bad else More(ls)
  }

  // ---------------------------------------------------------------------
  // The loop of the source
  // ---------------------------------------------------------------------

  /** data_scan: one loop over the bytes, with the line start and the resume point. */
  method DataScanLoop(b: string, scanPos: nat, maxTotal: nat) returns (v: Verdict)
    requires scanPos <= |b|
    ensures v == Scan(b, scanPos, maxTotal)
  {
    var i, lineStart, resume := scanPos, scanPos, scanPos;
    while i < |b|
      invariant scanPos <= lineStart == resume <= i <= |b|
      invariant Scan(b, scanPos, maxTotal) == Scan(b, lineStart, maxTotal)
      invariant EndOfLine(b, lineStart, lineStart) == EndOfLine(b, lineStart, i)
    {
      var ch := b[i];
      if ch == '\n' {
        var contentEnd := i;
        if contentEnd > lineStart && b[contentEnd - 1] == '\r' { contentEnd := contentEnd - 1; }
        var clen := contentEnd - lineStart;
        if clen > LINE_MAX { return Bad; }
        if clen == 1 && b[lineStart] == '.' { return Found(lineStart, i + 1 - lineStart); }
        lineStart := i + 1;
        resume := lineStart;
        i := i + 1;
        continue;
      }
      if ch == '\r' {
        if i + 1 < |b| && b[i + 1] == '\n' { i := i + 1; continue; }
        var clen := i - lineStart;
        if clen > LINE_MAX { return Bad; }
        if clen == 1 && b[lineStart] == '.' { return Found(lineStart, i + 1 - lineStart); }
        if i + 1 == |b| {
          lineStart := i + 1;
          if |b| > maxTotal { return Bad; }
          return More(resume);
        }
        lineStart := i + 1;
        resume := lineStart;
        i := i + 1;
        continue;
      }
      i := i + 1;
    }
    if |b| > maxTotal { return Bad; }
    if |b| - lineStart > LINE_MAX { return Bad; }
    return More(resume);
  }

  // ---------------------------------------------------------------------
  // Resuming equals starting over
  // ---------------------------------------------------------------------

  /** A line that has ended stays ended in the same way when bytes arrive. */
  lemma {:induction false} EndedLineIsFinal(b: string, more: string, ls: nat, i: nat)
    requires ls <= i <= |b| && EndOfLine(b, ls, i).Ended?
    ensures EndOfLine(b + more, ls, i) == EndOfLine(b, ls, i)
    decreases |b| - i
  {
    var w := b + more;
    assert forall k :: 0 <= k < |b| ==> w[k] == b[k];
    if b[i] == '\r' && i + 1 < |b| && b[i + 1] == '\n' {
      EndedLineIsFinal(b, more, ls, i + 1);
    } else if b[i] != '\r' && b[i] != '\n' {
      EndedLineIsFinal(b, more, ls, i + 1);
    }
  }

  /** The lines before a resume point are passed in the same way by a scan of the longer buffer. */
  lemma {:induction false} ResumeAgrees(b: string, more: string, ls: nat, maxTotal: nat)
    requires ls <= |b| && Scan(b, ls, maxTotal).More?
    ensures Scan(b + more, Scan(b, ls, maxTotal).resume, maxTotal) == Scan(b + more, ls, maxTotal)
    decreases |b| - ls
  {
    var e := EndOfLine(b, ls, ls);
    if e.Ended? {
      EndedLineIsFinal(b, more, ls, ls);
      assert (b + more)[ls] == b[ls];
      ResumeAgrees(b, more, e.next, maxTotal);
    }
  }

  /** A connection in the DATA phase. */
  class DataPhase {
    var data: string
    var scanPos: nat
    const maxTotal: nat

    /** The kept resume point cannot be told from a scan of everything, now and
        after any further bytes. */
    ghost predicate Valid()
      reads this
    {
      scanPos <= |data| && forall more: string :: Scan(data + more, scanPos, maxTotal) == Scan(data + more, 0, maxTotal)
    }

    constructor (maxMsg: nat)
      ensures Valid() && data == "" && maxTotal == maxMsg * 2 + 16
    {
      data, scanPos, maxTotal := "", 0, maxMsg * 2 + 16;
    }

    /** Bytes arrive and are scanned from the resume point: the verdict is that of
        a scan of the whole buffer from offset zero. */
    method Receive(chunk: string) returns (v: Verdict)
      requires Valid()
      modifies this
      ensures data == old(data) + chunk
      ensures v == Scan(data, 0, maxTotal)
      ensures v.More? ==> Valid()
    {
      ghost var was := data;
      data := data + chunk;
      v := DataScanLoop(data, scanPos, maxTotal);
      assert data + "" == data && was + chunk == data;
      if v.More? {
        scanPos := v.resume;
        forall more: string
          ensures Scan(data + more, scanPos, maxTotal) == Scan(data + more, 0, maxTotal)
        {
          ResumeAgrees(data, more, 0, maxTotal);
        }
      }
    }
  }

  // ---------------------------------------------------------------------
  // Chunking does not change what is accepted
  // ---------------------------------------------------------------------

  /** A CR pending at the buffer end ends the line at the same content when more
      bytes arrive, alone or with the LF that joins it. */
  lemma {:induction false} PendingLineResolves(b: string, more: string, ls: nat, i: nat)
    requires ls <= i <= |b| && EndOfLine(b, ls, i).PendingCr? && more != ""
    ensures EndOfLine(b + more, ls, i)
            == Ended(|b| - 1, if more[0] == '\n' then |b| + 1 else |b|)
    decreases |b| - i
  {
    var w := b + more;
    assert forall k :: 0 <= k < |b| ==> w[k] == b[k];
    assert w[|b|] == more[0];
    if i + 1 < |b| {
      PendingLineResolves(b, more, ls, i + 1);
    }
  }

  /** A line that is too long already does not get shorter. */
  lemma {:induction false} OpenLineGrows(b: string, more: string, ls: nat, i: nat)
    requires ls <= i <= |b| && EndOfLine(b, ls, i).Open? && (i > ls ==> b[i - 1] != '\r')
    ensures var e := EndOfLine(b + more, ls, i);
            match e
            case Ended(c, _) => c >= |b|
            case PendingCr(c) => c >= |b|
            case Open => true
    decreases |b| - i
  {
    var w := b + more;
    assert forall k :: 0 <= k < |b| ==> w[k] == b[k];
    if i < |b| {
      OpenLineGrows(b, more, ls, i + 1);
    } else {
      EndAfter(w, ls, i);
    }
  }

  lemma {:induction false} EndAfter(w: string, ls: nat, i: nat)
    requires ls <= i <= |w| && (i > ls ==> w[i - 1] != '\r')
    ensures match EndOfLine(w, ls, i)
            case Ended(c, _) => c >= i
            case PendingCr(c) => c >= i
            case Open => true
    decreases |w| - i
  {
    if i < |w| && w[i] != '\r' && w[i] != '\n' {
      EndAfter(w, ls, i + 1);
    }
  }

  /** A message found in a prefix of the stream is the message found in any longer
      prefix (the terminator may gain the LF that was still to come), and what is
      refused early is refused late: the outcome does not depend on how the
      stream was cut. */
  lemma {:induction false} VerdictIsStable(b: string, more: string, ls: nat, maxTotal: nat)
    requires ls <= |b| && |b + more| <= maxTotal
    ensures match Scan(b, ls, maxTotal)
            case Found(e, t) =>
              && Scan(b + more, ls, maxTotal).Found?
              && Scan(b + more, ls, maxTotal).end == e
              && t <= Scan(b + more, ls, maxTotal).termLen <= t + 1
            case Bad => Scan(b + more, ls, maxTotal) == Bad
            case More(_) => true
    decreases |b| - ls
  {
    var w := b + more;
    assert forall k :: 0 <= k < |b| ==> w[k] == b[k];
    if more == "" {
      assert w == b;
    } else {
      match EndOfLine(b, ls, ls)
      case Ended(c, next) =>
        EndedLineIsFinal(b, more, ls, ls);
        if c - ls <= LINE_MAX && !IsTerminator(b, ls, c) {
          VerdictIsStable(b, more, next, maxTotal);
        }
      case PendingCr(c) =>
        PendingLineResolves(b, more, ls, ls);
      case Open =>
        OpenLineGrows(b, more, ls, ls);
    }
  }

  // ---------------------------------------------------------------------
  // Dot stuffing
  // ---------------------------------------------------------------------

  /** mail_stuff_dots: a dot at the start of a line is doubled. */
  function Stuff(m: string, start: bool): string {
    if m == "" then ""
    else (if start && m[0] == '.' then ".." else [m[0]]) + Stuff(m[1..], IsBreak(m[0]))
  }

  /** mail_unstuff_dots: a dot at the start of a line is dropped. */
  function Unstuff(s: string, start: bool): string {
    if s == "" then ""
    else if start && s[0] == '.' then Unstuff(s[1..], false)
    else [s[0]] + Unstuff(s[1..], IsBreak(s[0]))
  }

  method StuffDots(m: string) returns (out: string)
    ensures out == Stuff(m, true)
  {
    out := "";
    var start := true;
    assert m[0..] == m;
    for i := 0 to |m|
      invariant out + Stuff(m[i..], start) == Stuff(m, true)
    {
      var piece := if start && m[i] == '.' then ".." else [m[i]];
      StuffStep(out, m, i, start);
      if start && m[i] == '.' { out := out + "."; }
      out := out + [m[i]];
      start := IsBreak(m[i]);
    }
    assert m[|m|..] == "" && out + "" == out;
  }

  lemma StuffStep(out: string, m: string, i: nat, start: bool)
    requires i < |m|
    ensures out + Stuff(m[i..], start)
         == (if start && m[i] == '.' then out + "." else out) + [m[i]] + Stuff(m[i + 1..], IsBreak(m[i]))
  {
    assert m[i..][1..] == m[i + 1..] && m[i..][0] == m[i];
    var rest := Stuff(m[i + 1..], IsBreak(m[i]));
    if start && m[i] == '.' {
      assert out + (".." + rest) == out + "." + "." + rest;
    } else {
      assert out + ([m[i]] + rest) == out + [m[i]] + rest;
    }
  }

  /** The loop of mail_unstuff_dots: the writer never overtakes the reader. */
  method UnstuffInPlace(a: array<char>, n: nat) returns (w: nat)
    requires n <= a.Length
    modifies a
    ensures w <= n && a[..w] == Unstuff(old(a[..n]), true)
  {
    ghost var s := a[..n];
    ghost var done := "";
    w := 0;
    var start := true;
    assert s[0..] == s && done + Unstuff(s, true) == Unstuff(s, true);
    for r := 0 to n
      invariant w <= r && a[..w] == done && forall k :: r <= k < n ==> a[k] == s[k]
      invariant done + Unstuff(s[r..], start) == Unstuff(s, true)
    {
      var c := a[r];
      UnstuffStep(done, s, r, start);
      if start && c == '.' {
        start := false;
        continue;
      }
      a[w] := c;
      w := w + 1;
      done := done + [c];
      start := IsBreak(c);
    }
    assert s[n..] == "" && done + "" == done;
  }

  lemma UnstuffStep(done: string, s: string, r: nat, start: bool)
    requires r < |s|
    ensures done + Unstuff(s[r..], start)
         == if start && s[r] == '.' then done + Unstuff(s[r + 1..], false)
            else done + [s[r]] + Unstuff(s[r + 1..], IsBreak(s[r]))
  {
    assert s[r..][1..] == s[r + 1..] && s[r..][0] == s[r];
    if !(start && s[r] == '.') {
      assert done + ([s[r]] + Unstuff(s[r + 1..], IsBreak(s[r]))) == done + [s[r]] + Unstuff(s[r + 1..], IsBreak(s[r]));
    }
  }

  /** Unstuffing undoes stuffing, for every message. */
  lemma {:induction false} UnstuffStuff(m: string, start: bool)
    ensures Unstuff(Stuff(m, start), start) == m
  {
    if m != "" {
      var rest := Stuff(m[1..], IsBreak(m[0]));
      UnstuffStuff(m[1..], IsBreak(m[0]));
      var s := Stuff(m, start);
      if start && m[0] == '.' {
        assert s == ".." + rest;
        assert s[1..][1..] == rest && s[1..][0] == '.' && s[0] == '.';
        assert Unstuff(s[1..], false) == ['.'] + Unstuff(rest, false);
      } else {
        assert s[1..] == rest && s[0] == m[0];
      }
      HeadTail(m);
    }
  }

  /** A line of `s` starts at `i`. */
  predicate LineStart(s: string, i: nat, start: bool) {
    i <= |s| && if i == 0 then start else IsBreak(s[i - 1])
  }

  /** A dot at the start of a line of a stuffed text has another behind it. */
  lemma {:induction false} StuffedDots(m: string, start: bool, i: nat)
    requires i < |Stuff(m, start)| && LineStart(Stuff(m, start), i, start) && Stuff(m, start)[i] == '.'
    ensures i + 1 < |Stuff(m, start)| && Stuff(m, start)[i + 1] == '.'
    decreases m
  {
    var s, rest := Stuff(m, start), Stuff(m[1..], IsBreak(m[0]));
    var k := if start && m[0] == '.' then 2 else 1;
    assert |s| == k + |rest| && forall j :: k <= j < |s| ==> s[j] == rest[j - k];
    if i >= k {
      assert i > k ==> s[i - 1] == rest[i - k - 1];
      assert s[k - 1] == m[0];
      StuffedDots(m[1..], IsBreak(m[0]), i - k);
    }
  }

  lemma {:induction false} StuffKeepsEnd(m: string, start: bool)
    requires m != ""
    ensures Stuff(m, start) != "" && Stuff(m, start)[|Stuff(m, start)| - 1] == m[|m| - 1]
  {
    if |m| > 1 {
      StuffKeepsEnd(m[1..], IsBreak(m[0]));
    } else {
      assert m[1..] == "";
    }
  }

  /** No line of the text is longer than a line may be. */
  ghost predicate ShortLines(s: string) {
    forall i, j :: 0 <= i <= j <= |s| && Unbroken(s, i, j) ==> j - i <= LINE_MAX
  }

  predicate Unbroken(s: string, i: nat, j: nat)
    requires i <= j <= |s|
  {
    forall k :: i <= k < j ==> !IsBreak(s[k])
  }

  /** Where the line behind a break at `k` starts. */
  function NextLine(w: string, k: nat): nat
    requires k + 1 < |w|
  {
    if w[k] == '\r' && w[k + 1] == '\n' then k + 2 else k + 1
  }

  /** The end of a line that has a break at `k`. */
  lemma {:induction false} LineEndsAt(w: string, ls: nat, i: nat, k: nat)
    requires ls <= i <= k && k + 1 < |w| && IsBreak(w[k]) && Unbroken(w, ls, k)
    ensures EndOfLine(w, ls, i) == Ended(k, NextLine(w, k))
    decreases k - i
  {
    if i < k { LineEndsAt(w, ls, i + 1, k); }
  }

  /** A line that is no terminator is passed. */
  lemma LinePasses(w: string, ls: nat, k: nat, maxTotal: nat)
    requires ls <= k && k + 1 < |w| && IsBreak(w[k]) && Unbroken(w, ls, k)
    requires k - ls <= LINE_MAX && (k == ls + 1 ==> w[ls] != '.')
    ensures NextLine(w, k) <= |w| && Scan(w, ls, maxTotal) == Scan(w, NextLine(w, k), maxTotal)
  {
    LineEndsAt(w, ls, ls, k);
    hide EndOfLine;
  }

  /** A dot alone on its line, in whatever way the line ends, with what follows. */
  predicate DotLine(term: string, rest: string) {
    term == ".\r\n" || term == ".\n" || (term == ".\r" && (rest == "" || rest[0] != '\n'))
  }

  lemma DotEnds(s: string, term: string, rest: string, maxTotal: nat)
    requires DotLine(term, rest)
    ensures Scan(s + term + rest, |s|, maxTotal) == Found(|s|, |term|)
  {
    var w, ls := s + term + rest, |s|;
    assert w[ls] == '.' && w[ls + 1] == term[1] && (|term| == 3 ==> w[ls + 2] == '\n');
    assert |w| > ls + 2 && |term| == 2 ==> w[ls + 2] == rest[0];
    assert EndOfLine(w, ls, ls) == EndOfLine(w, ls, ls + 1);
    assert |w| > ls + 2 && w[ls + 1] == '\r' && w[ls + 2] == '\n' ==>
        EndOfLine(w, ls, ls + 1) == EndOfLine(w, ls, ls + 2) == Ended(ls + 1, ls + 3);
    hide EndOfLine;
  }

  /** However long, a stuffed message of complete, short lines is found whole: its
      end is the first line that is a single dot. */
  lemma {:induction false} StuffedIsFound(s: string, term: string, rest: string, ls: nat, maxTotal: nat)
    requires ls <= |s| && LineStart(s, ls, true) && ShortLines(s) && (s != "" ==> IsBreak(s[|s| - 1]))
    requires DotLine(term, rest)
    requires forall i :: 0 <= i < |s| && LineStart(s, i, true) && s[i] == '.' ==> i + 1 < |s| && s[i + 1] == '.'
    ensures Scan(s + term + rest, ls, maxTotal) == Found(|s|, |term|)
    decreases |s| - ls
  {
    hide Scan;
    var w := s + term + rest;
    assert forall k :: 0 <= k < |s| ==> w[k] == s[k];
    assert w[|s|] == '.';
    if ls == |s| {
      DotEnds(s, term, rest, maxTotal);
    } else {
      var k := FirstBreak(s, ls);
      assert Unbroken(w, ls, k) && Unbroken(s, ls, k);
      hide Unbroken, DotLine;
      LinePasses(w, ls, k, maxTotal);
      StuffedIsFound(s, term, rest, NextLine(w, k), maxTotal);
    }
  }

  lemma {:induction false} FirstBreak(s: string, i: nat) returns (k: nat)
    requires i < |s| && IsBreak(s[|s| - 1])
    ensures i <= k < |s| && IsBreak(s[k]) && Unbroken(s, i, k)
    decreases |s| - i
  {
    if IsBreak(s[i]) { k := i; } else { k := FirstBreak(s, i + 1); }
  }

  /** What a sender stuffs and ends with a dot line is found at that line, whatever
      follows it, and unstuffs to the message. */
  lemma DataSurvives(m: string, term: string, rest: string, maxTotal: nat)
    requires ShortLines(Stuff(m, true)) && (m != "" ==> IsBreak(m[|m| - 1])) && DotLine(term, rest)
    ensures var s := Stuff(m, true);
            && Scan(s + term + rest, 0, maxTotal) == Found(|s|, |term|)
            && Unstuff((s + term + rest)[..|s|], true) == m
  {
    var s := Stuff(m, true);
    if m != "" { StuffKeepsEnd(m, true); }
    forall i | 0 <= i < |s| && LineStart(s, i, true) && s[i] == '.' ensures i + 1 < |s| && s[i + 1] == '.' {
      StuffedDots(m, true, i);
    }
    hide Scan, ShortLines, Stuff, Unstuff, DotLine;
    StuffedIsFound(s, term, rest, 0, maxTotal);
    UnstuffStuff(m, true);
    assert (s + term + rest)[..|s|] == s;
  }

  // ---------------------------------------------------------------------
  // Limits
  // ---------------------------------------------------------------------

  /** A line longer than a line may be is refused, finished or not. */
  lemma LongLineIsRefused(b: string, ls: nat, maxTotal: nat)
    requires ls + LINE_MAX < |b| && Unbroken(b, ls, ls + LINE_MAX + 1)
    ensures Scan(b, ls, maxTotal) == Bad
  {
    EndsBehind(b, ls, ls, ls + LINE_MAX + 1);
    hide EndOfLine, Unbroken;
  }

  lemma {:induction false} EndsBehind(b: string, ls: nat, i: nat, k: nat)
    requires ls <= i <= k <= |b| && Unbroken(b, ls, k)
    ensures match EndOfLine(b, ls, i)
            case Ended(c, _) => c >= k
            case PendingCr(c) => c >= k
            case Open => true
    decreases k - i
  {
    if i < k {
      EndsBehind(b, ls, i + 1, k);
    } else {
      EndAfter(b, ls, i);
    }
  }

  /** The content of a line that has ended holds no line break, and an open line none
      at all. */
  lemma {:induction false} ContentUnbroken(b: string, ls: nat, i: nat)
    requires ls <= i <= |b| && (if i > ls && b[i - 1] == '\r' then Unbroken(b, ls, i - 1) && i < |b| && b[i] == '\n'
                                else Unbroken(b, ls, i))
    ensures match EndOfLine(b, ls, i)
            case Ended(c, _) => Unbroken(b, ls, c)
            case PendingCr(c) => Unbroken(b, ls, c)
            case Open => Unbroken(b, ls, |b|)
    decreases |b| - i
  {
    if i < |b| && b[i] != '\n' && (b[i] != '\r' || (i + 1 < |b| && b[i + 1] == '\n')) {
      ContentUnbroken(b, ls, i + 1);
    }
  }

  /** Only a line that is too long or a message that is too long is refused. */
  lemma {:induction false} RefusedForLength(b: string, ls: nat, maxTotal: nat)
    requires ls <= |b| && Scan(b, ls, maxTotal) == Bad
    ensures |b| > maxTotal || !ShortLines(b)
    decreases |b| - ls
  {
    ContentUnbroken(b, ls, ls);
    hide Unbroken;
    var e := EndOfLine(b, ls, ls);
    if e.Ended? && e.content - ls <= LINE_MAX && !IsTerminator(b, ls, e.content) {
      RefusedForLength(b, e.next, maxTotal);
    }
  }

  /** What is not refused and not complete is within both limits: a message that
      went over either would be refused. */
  lemma {:induction false} PendingIsWithin(b: string, ls: nat, maxTotal: nat)
    requires ls <= |b| && Scan(b, ls, maxTotal).More?
    ensures |b| <= maxTotal && |b| - Scan(b, ls, maxTotal).resume <= LINE_MAX + 1
    decreases |b| - ls
  {
    var e := EndOfLine(b, ls, ls);
    if e.Ended? { PendingIsWithin(b, e.next, maxTotal); }
  }
}
