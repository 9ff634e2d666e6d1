/** Relaxed body canonicalization of DKIM: the simple line-by-line form, and the
    streaming form that feeds the hash in chunks without ever holding the
    canonical body. */
module DkimBody {
  import opened Common

  predicate IsWsp(c: char) {
    c == ' ' || c == '\t'
  }

  const CRLF: string := "\r\n"

  // ---------------------------------------------------------------------
  // The simple form
  // ---------------------------------------------------------------------

  /** Delete the whitespace at the end of a line. */
  function StripTrailing(l: string): string {
    if l != "" && IsWsp(l[|l| - 1]) then StripTrailing(l[..|l| - 1]) else l
  }

  /** Reduce every run of whitespace to one space. */
  function Collapse(l: string): string {
    if l == "" then ""
    else
      var front, c := l[..|l| - 1], l[|l| - 1];
      if !IsWsp(c) then Collapse(front) + [c]
      else if front != "" && IsWsp(front[|front| - 1]) then Collapse(front)
      else Collapse(front) + " "
  }

  function CanonLine(l: string): string {
    Collapse(StripTrailing(l))
  }

  predicate CrlfAt(b: string, j: int) {
    0 <= j && j + 1 < |b| && b[j] == '\r' && b[j + 1] == '\n'
  }

  /** Offset of the first CRLF, or the length. */
  function FindCrlf(b: string): (k: nat)
    ensures k <= |b|
    ensures k < |b| ==> CrlfAt(b, k)
    ensures forall j :: 0 <= j < k ==> !CrlfAt(b, j)
  {
    if |b| < 2 then |b|
    else if CrlfAt(b, 0) then 0
    else
      var k := FindCrlf(b[1..]);
      assert forall j :: 0 < j < |b| ==> CrlfAt(b, j) == CrlfAt(b[1..], j - 1);
      1 + k
  }

  /** The lines of a body; the last one need not be terminated. */
  function Lines(b: string): seq<string> {
    if b == "" then []
    else
      var k := FindCrlf(b);
      if k == |b| then [b] else [b[..k]] + Lines(b[k + 2..])
  }

  function CanonLines(ls: seq<string>): (r: seq<string>)
    ensures |r| == |ls|
    ensures forall i :: 0 <= i < |ls| ==> r[i] == CanonLine(ls[i])
  {
    seq(|ls|, i requires 0 <= i < |ls| => CanonLine(ls[i]))
  }

  /** Remove the empty lines at the end. */
  function DropEmpty(ls: seq<string>): seq<string> {
    if ls != [] && ls[|ls| - 1] == "" then DropEmpty(ls[..|ls| - 1]) else ls
  }

  /** Every line followed by CRLF. */
  function Terminated(ls: seq<string>): string {
    if ls == [] then "" else Terminated(ls[..|ls| - 1]) + ls[|ls| - 1] + CRLF
  }

  /** The canonical body; a body without a nonempty line becomes one CRLF. */
  function Canon(b: string): string {
    var ls := DropEmpty(CanonLines(Lines(b)));
    if ls == [] then CRLF else Terminated(ls)
  }

  // ---------------------------------------------------------------------
  // One line with a pending space
  // ---------------------------------------------------------------------

  /** What the inner loop has written after reading `l`: a run of whitespace
      becomes a space only when a later byte follows it. */
  function Written(l: string): string {
    if l == "" then ""
    else
      var front, c := l[..|l| - 1], l[|l| - 1];
      if IsWsp(c) then Written(front)
      else Written(front) + (if Pending(front) then " " else "") + [c]
  }

  predicate Pending(l: string) {
    l != "" && IsWsp(l[|l| - 1])
  }

  lemma {:induction false} CollapseStripped(l: string)
    ensures Collapse(l) == Collapse(StripTrailing(l)) + if Pending(l) then " " else ""
  {
    if Pending(l) {
      var front := l[..|l| - 1];
      CollapseStripped(front);
      if !Pending(front) {
        assert StripTrailing(front) == front;
      }
    }
  }

  /** The pending-space loop writes the canonical line. */
  lemma {:induction false} WrittenIsCanon(l: string)
    ensures Written(l) == CanonLine(l)
  {
    if l != "" {
      var front := l[..|l| - 1];
      WrittenIsCanon(front);
      CollapseStripped(front);
    }
  }

  lemma {:induction false} WrittenLength(l: string)
    ensures |Written(l)| + (if Pending(l) then 1 else 0) <= |l|
  {
    if l != "" {
      WrittenLength(l[..|l| - 1]);
    }
  }

  /** A line comes out empty exactly when it is all whitespace. */
  lemma {:induction false} WrittenEmpty(l: string)
    ensures Written(l) == "" <==> forall i :: 0 <= i < |l| ==> IsWsp(l[i])
  {
    if l != "" {
      WrittenEmpty(l[..|l| - 1]);
    }
  }

  // ---------------------------------------------------------------------
  // Deferred line ends
  // ---------------------------------------------------------------------

  function Crlfs(n: nat): string {
    if n == 0 then "" else Crlfs(n - 1) + CRLF
  }

  /** Bytes staged and line ends owed after the given canonical lines. */
  function Staged(ls: seq<string>): (string, nat) {
    if ls == [] then ("", 0)
    else
      var p := Staged(ls[..|ls| - 1]);
      var l := ls[|ls| - 1];
      if l == "" then (p.0, p.1 + 1) else (p.0 + Crlfs(p.1) + l, 1)
  }

  lemma {:induction false} CrlfsCommute(n: nat)
    ensures CRLF + Crlfs(n) == Crlfs(n + 1)
  {
    if n > 0 {
      CrlfsCommute(n - 1);
      assert CRLF + (Crlfs(n - 1) + CRLF) == (CRLF + Crlfs(n - 1)) + CRLF;
    }
  }

  /** The empty lines at the end contribute only line ends. */
  lemma {:induction false} TrailingLineEnds(ls: seq<string>)
    ensures |DropEmpty(ls)| <= |ls|
    ensures Terminated(ls) == Terminated(DropEmpty(ls)) + Crlfs(|ls| - |DropEmpty(ls)|)
  {
    if ls != [] && ls[|ls| - 1] == "" {
      TrailingLineEnds(ls[..|ls| - 1]);
    }
  }

  /** Deferring the line ends loses nothing: the staged bytes and one CRLF are
      the canonical body. */
  lemma {:induction false} StagedIsCanon(ls: seq<string>)
    ensures var p, kept := Staged(ls), DropEmpty(ls);
            && |kept| <= |ls|
            && (if kept == [] then p == ("", |ls|)
                else p.0 + CRLF == Terminated(kept) && p.1 == |ls| - |kept| + 1)
  {
    if ls != [] {
      var front, l := ls[..|ls| - 1], ls[|ls| - 1];
      StagedIsCanon(front);
      if l != "" {
        TrailingLineEnds(front);
        var p, kept := Staged(front), DropEmpty(front);
        if kept == [] {
          assert Terminated(kept) == "";
        } else {
          CrlfsCommute(|front| - |kept|);
          assert (p.0 + CRLF) + Crlfs(|front| - |kept|) == p.0 + (CRLF + Crlfs(|front| - |kept|));
        }
        assert p.0 + Crlfs(p.1) == Terminated(front);
      }
    }
  }

  // ---------------------------------------------------------------------
  // The streaming form
  // ---------------------------------------------------------------------

  lemma WrittenStep(read: string, c: char)
    ensures Written(read + [c]) == Written(read) + if IsWsp(c) then "" else (if Pending(read) then " " else "") + [c]
    ensures Pending(read + [c]) == IsWsp(c)
    ensures |Written(read + [c])| <= |read| + 1
  {
    assert (read + [c])[..|read|] == read;
    WrittenLength(read + [c]);
  }

  /** The inner loop over the bytes of one line: writes never leave the reserved space. */
  method WriteLine(buf: array<char>, start: nat, body: string, ls: nat, i: nat) returns (w: nat)
    requires ls <= i <= |body| && start + (i - ls) <= buf.Length
    modifies buf
    ensures start <= w <= start + (i - ls)
    ensures buf[..w] == old(buf[..start]) + Written(body[ls..i])
  {
    hide Written, Pending;
    ghost var base := buf[..start];
    w := start;
    var pending := false;
    EmptyLine();
    assert body[ls..ls] == "";
    for j := ls to i
      invariant start <= w <= start + (j - ls)
      invariant buf[..w] == base + Written(body[ls..j])
      invariant pending == Pending(body[ls..j])
    {
      var c := body[j];
      WrittenStep(body[ls..j], c);
      assert body[ls..j + 1] == body[ls..j] + [c];
      ghost var out := buf[..w];
      if IsWsp(c) {
        pending := true;
      } else {
        if pending {
          buf[w] := ' ';
          w := w + 1;
          pending := false;
          assert buf[..w] == out + " ";
          out := buf[..w];
        }
        buf[w] := c;
        w := w + 1;
        assert buf[..w] == out + [c];
      }
    }
  }

  lemma EmptyLine()
    ensures Written("") == "" && !Pending("")
  {
  }

  const FLUSH: nat := 32768

  /** The staging buffer in front of the hash.  `Hashed` is the concatenation of
      the chunks given to the hash so far. */
  class BodyHash {
    ghost var Hashed: string
    var p: array<char>
    var len: nat
    var owed: nat

    ghost predicate Valid()
      reads this
    {
      len <= p.Length && p.Length >= 4096
    }

    /** Everything hashed or staged. */
    ghost function Stream(): string
      requires Valid()
      reads this, p
    {
      Hashed + p[..len]
    }

    constructor ()
      ensures Valid() && Stream() == "" && owed == 0 && fresh(p)
    {
      p := new char[4096];
      len, owed := 0, 0;
      Hashed := "";
    }

    /** bh_reserve: flush what is staged past the threshold, grow by doubling. */
    method Reserve(need: nat)
      requires Valid()
      modifies this
      ensures Valid() && len + need <= p.Length
      ensures Stream() == old(Stream()) && owed == old(owed)
      ensures p == old(p) || fresh(p)
    {
      if len + need > FLUSH && len > 0 {
        Hashed := Hashed + p[..len];
        len := 0;
      }
      if len + need > p.Length {
        var nc := p.Length;
        while nc < len + need
          invariant nc >= p.Length >= 4096
        {
          nc := nc * 2;
        }
        var np := new char[nc];
        for i := 0 to len
          invariant np[..i] == p[..i]
          modifies np
        {
          np[i] := p[i];
        }
        p := np;
      }
    }

    method StageLineEnd()
      requires Valid()
      modifies this, p
      ensures Valid() && owed == old(owed)
      ensures Stream() == old(Stream()) + CRLF
      ensures p == old(p) || fresh(p)
    {
      Reserve(2);
      ghost var staged := p[..len];
      p[len] := '\r';
      p[len + 1] := '\n';
      assert p[..len + 2] == staged + CRLF;
      len := len + 2;
    }

    /** bh_crlf: stage `n` line ends. */
    method StageLineEnds(n: nat)
      requires Valid()
      modifies this, p
      ensures Valid() && owed == old(owed)
      ensures Stream() == old(Stream()) + Crlfs(n)
      ensures p == old(p) || fresh(p)
    {
      hide BodyHash.Valid;
      for i := 0 to n
        invariant Valid() && owed == old(owed)
        invariant Stream() == old(Stream()) + Crlfs(i)
        invariant p == old(p) || fresh(p)
      {
        StageLineEnd();
        assert Crlfs(i + 1) == Crlfs(i) + CRLF;
      }
    }

    /** Write one line into reserved space. */
    method StageLine(body: string, ls: nat, i: nat)
      requires Valid() && ls <= i <= |body|
      modifies this, p
      ensures Valid() && owed == old(owed)
      ensures Stream() == old(Stream()) + Written(body[ls..i])
      ensures p == old(p) || fresh(p)
    {
      Reserve(i - ls);
      ghost var staged := p[..len];
      len := WriteLine(p, len, body, ls, i);
      assert p[..len] == staged + Written(body[ls..i]);
    }

    /** The final update. */
    method Finish()
      requires Valid()
      modifies this
      ensures Valid() && Hashed == old(Stream())
    {
      if len > 0 {
        Hashed := Hashed + p[..len];
        len := 0;
      }
    }
  }

  /** True when the line has a byte that is not whitespace. */
  method HasContent(body: string, ls: nat, i: nat) returns (yes: bool)
    requires ls <= i <= |body|
    ensures yes == (CanonLine(body[ls..i]) != "")
  {
    ghost var line := body[ls..i];
    WrittenIsCanon(line);
    WrittenEmpty(line);
    var j := ls;
    while j < i && IsWsp(body[j])
      invariant ls <= j <= i
      invariant forall k :: 0 <= k < j - ls ==> IsWsp(line[k])
    {
      assert line[j - ls] == body[j];
      j := j + 1;
    }
    assert j < i ==> line[j - ls] == body[j];
    yes := j < i;
  }

  /** One turn of the line loop. */
  method HashLine(b: BodyHash, body: string, ls: nat, i: nat)
    requires b.Valid() && ls <= i <= |body|
    modifies b, b.p
    ensures b.Valid() && (b.p == old(b.p) || fresh(b.p))
    ensures var l := CanonLine(body[ls..i]);
            (b.Stream(), b.owed) == if l == "" then (old(b.Stream()), old(b.owed) + 1)
                                    else (old(b.Stream()) + Crlfs(old(b.owed)) + l, 1)
  {
    hide Written, CanonLine;
    WrittenIsCanon(body[ls..i]);
    var nonempty := HasContent(body, ls, i);
    if nonempty {
      b.StageLineEnds(b.owed);
      b.StageLine(body, ls, i);
      b.owed := 1;
    } else {
      b.owed := b.owed + 1;
    }
  }

  /** relaxed_body_sha256: the concatenation of all chunks given to the hash is
      the canonical body, wherever the flushes fell. */
  method HashBody(body: string) returns (b: BodyHash)
    ensures fresh(b) && b.Hashed == Canon(body)
  {
    hide CanonLine, Lines, Staged, BodyHash.Valid;
    b := new BodyHash();
    var i := 0;
    ghost var done := [];
    NoLines(body);
    while i < |body|
      invariant i <= |body| && fresh(b) && fresh(b.p) && b.Valid()
      invariant Lines(body) == done + Lines(body[i..])
      invariant (b.Stream(), b.owed) == Staged(CanonLines(done))
    {
      var ls := i;
      i := LineEnd(body, ls);
      LinesStep(body, ls, i);
      StagedStep(done, body[ls..i]);
      HashLine(b, body, ls, i);
      done := done + [body[ls..i]];
      if i < |body| {
        i := i + 2;
      }
    }
    assert body[i..] == "" && done + [] == done;
    StagedIsCanon(CanonLines(done));
    b.StageLineEnds(1);
    assert Crlfs(1) == CRLF;
    b.Finish();
  }

  lemma NoLines(body: string)
    ensures body[0..] == body && Lines("") == []
    ensures Staged(CanonLines([])) == ("", 0)
  {
  }

  /** Scan to the next CRLF or the end. */
  method LineEnd(body: string, ls: nat) returns (i: nat)
    requires ls < |body|
    ensures ls <= i <= |body| && i - ls == FindCrlf(body[ls..])
  {
    i := ls;
    while i < |body| && !(body[i] == '\r' && i + 1 < |body| && body[i + 1] == '\n')
      invariant ls <= i <= |body|
      invariant FindCrlf(body[ls..]) == i - ls + FindCrlf(body[i..])
    {
      assert body[i..][1..] == body[i + 1..];
      i := i + 1;
    }
  }

  lemma LinesStep(body: string, ls: nat, i: nat)
    requires ls < |body| && ls <= i <= |body| && i - ls == FindCrlf(body[ls..])
    ensures i < |body| ==> i + 2 <= |body|
    ensures Lines(body[ls..]) == [body[ls..i]] + Lines(body[if i < |body| then i + 2 else i..])
  {
    hide Lines, FindCrlf;
    LinesHead(body[ls..]);
    if i < |body| {
      assert body[ls..][..i - ls] == body[ls..i];
      assert body[ls..][i - ls + 2..] == body[i + 2..];
    } else {
      assert body[i..] == "" && body[ls..] == body[ls..i];
    }
  }

  lemma LinesHead(b: string)
    ensures Lines("") == []
    ensures b != "" ==>
              var k := FindCrlf(b);
              Lines(b) == if k == |b| then [b] + Lines("") else [b[..k]] + Lines(b[k + 2..])
  {
    hide FindCrlf;
  }

  lemma StagedStep(done: seq<string>, line: string)
    ensures var p, l := Staged(CanonLines(done)), CanonLine(line);
            Staged(CanonLines(done + [line])) == if l == "" then (p.0, p.1 + 1) else (p.0 + Crlfs(p.1) + l, 1)
  {
    var ls := CanonLines(done + [line]);
    assert ls[..|ls| - 1] == CanonLines(done);
  }

  // ---------------------------------------------------------------------
  // The canonical form is a fixed point
  // ---------------------------------------------------------------------

  ghost predicate NoCrlf(l: string) {
    forall j :: !CrlfAt(l, j)
  }

  /** Whitespace only as single inner spaces. */
  ghost predicate Tidy(l: string) {
    && (forall j :: 0 <= j < |l| && IsWsp(l[j]) ==> l[j] == ' ')
    && (forall j :: 0 <= j && j + 1 < |l| ==> !(IsWsp(l[j]) && IsWsp(l[j + 1])))
    && !Pending(l)
  }

  /** What is written is tidy, and introduces no line end. */
  lemma WrittenIsTidy(l: string)
    ensures Tidy(Written(l))
    ensures NoCrlf(l) ==> NoCrlf(Written(l))
  {
    hide Tidy, NoCrlf, Written;
    WrittenTidy(l);
    if NoCrlf(l) { WrittenHasNoCrlf(l); }
  }

  lemma {:induction false} WrittenTidy(l: string)
    ensures Tidy(Written(l))
  {
    if l != "" {
      WrittenTidy(l[..|l| - 1]);
      WrittenEnd(l[..|l| - 1]);
    }
  }

  lemma WrittenEnd(l: string)
    ensures l != "" && !Pending(l) ==> Written(l) != "" && Written(l)[|Written(l)| - 1] == l[|l| - 1]
  {
  }

  lemma WrittenSnoc(l: string, c: char)
    ensures Written(l + [c]) == if IsWsp(c) then Written(l) else Written(l) + (if Pending(l) then " " else "") + [c]
  {
    assert (l + [c])[..|l|] == l;
  }

  lemma {:induction false} WrittenHasNoCrlf(l: string)
    requires NoCrlf(l)
    ensures NoCrlf(Written(l))
  {
    if l != "" {
      var front, c := l[..|l| - 1], l[|l| - 1];
      hide NoCrlf, Written;
      assert l == front + [c];
      NoCrlfSnoc(front, c);
      WrittenHasNoCrlf(front);
      WrittenSnoc(front, c);
      WrittenEnd(front);
      var w := Written(front);
      NoCrlfSnoc(w, ' ');
      NoCrlfSnoc(w + " ", c);
      NoCrlfSnoc(w, c);
      assert w + "" == w;
      if front == "" { NoneWritten(); }
    }
  }

  lemma NoneWritten()
    ensures Written("") == "" && !Pending("")
  {
  }

  lemma NoCrlfSnoc(l: string, c: char)
    ensures NoCrlf(l + [c]) <==> NoCrlf(l) && !(l != "" && l[|l| - 1] == '\r' && c == '\n')
  {
    var t := l + [c];
    forall j ensures CrlfAt(t, j) <==> CrlfAt(l, j) || (j == |l| - 1 && j >= 0 && l[j] == '\r' && c == '\n') {
      if 0 <= j && j + 1 < |l| { assert t[j] == l[j] && t[j + 1] == l[j + 1]; }
    }
  }

  /** A tidy line is written as it is. */
  lemma {:induction false} TidyIsFixed(l: string)
    requires (forall j :: 0 <= j < |l| && IsWsp(l[j]) ==> l[j] == ' ')
    requires (forall j :: 0 <= j && j + 1 < |l| ==> !(IsWsp(l[j]) && IsWsp(l[j + 1])))
    ensures Written(l) + (if Pending(l) then " " else "") == l
  {
    if l != "" {
      var front, c := l[..|l| - 1], l[|l| - 1];
      TidyIsFixed(front);
      assert l == front + [c];
      assert front != "" ==> l[|l| - 2] == front[|front| - 1];
    }
  }

  lemma CanonLineFixed(l: string)
    ensures CanonLine(CanonLine(l)) == CanonLine(l)
    ensures NoCrlf(l) ==> NoCrlf(CanonLine(l))
  {
    WrittenIsCanon(l);
    WrittenIsTidy(l);
    TidyIsFixed(Written(l));
    WrittenIsCanon(Written(l));
  }

  /** The first line end after a line without one is its own. */
  lemma {:induction false} FindOwnCrlf(l: string, rest: string)
    requires NoCrlf(l)
    ensures FindCrlf(l + CRLF + rest) == |l|
  {
    var b := l + CRLF + rest;
    hide NoCrlf, FindCrlf;
    assert b[|l|] == '\r' && b[|l| + 1] == '\n';
    assert CrlfAt(b, |l|);
    hide CrlfAt;
    forall j | 0 <= j < |l| ensures !CrlfAt(b, j) {
      NoCrlfInFront(l, CRLF + rest, j);
      assert b == l + (CRLF + rest);
    }
  }

  lemma NoCrlfInFront(l: string, rest: string, j: nat)
    requires NoCrlf(l) && j < |l| && (rest != "" ==> rest[0] == '\r')
    ensures !CrlfAt(l + rest, j)
  {
    assert !CrlfAt(l, j);
    assert (l + rest)[j] == l[j];
    if j + 1 < |l| {
      assert (l + rest)[j + 1] == l[j + 1];
    } else if rest != "" {
      assert (l + rest)[j + 1] == rest[0];
    }
  }

  lemma {:induction false} TerminatedFront(ls: seq<string>)
    requires ls != []
    ensures Terminated(ls) == ls[0] + CRLF + Terminated(ls[1..])
  {
    hide Terminated;
    var front, rest := ls[..|ls| - 1], ls[1..];
    TerminatedUnfold(ls);
    if |ls| > 1 {
      TerminatedFront(front);
      TerminatedUnfold(rest);
      assert front[1..] == rest[..|rest| - 1];
      Assoc(ls[0] + CRLF, Terminated(front[1..]), ls[|ls| - 1]);
      Assoc(ls[0] + CRLF, Terminated(front[1..]) + ls[|ls| - 1], CRLF);
    } else {
      NoTerminated();
      assert front == [] && rest == [];
    }
  }

  lemma TerminatedUnfold(ls: seq<string>)
    requires ls != []
    ensures Terminated(ls) == Terminated(ls[..|ls| - 1]) + ls[|ls| - 1] + CRLF
  {
  }

  lemma NoTerminated()
    ensures Terminated([]) == ""
  {
  }

  /** Splitting terminated lines gives the lines back. */
  lemma {:induction false} LinesOfTerminated(ls: seq<string>)
    requires forall l :: l in ls ==> NoCrlf(l)
    ensures Lines(Terminated(ls)) == ls
  {
    hide Lines, NoCrlf, FindCrlf;
    if ls == [] {
      NoLines("");
    } else {
      TerminatedFront(ls);
      assert ls[0] in ls;
      hide Terminated;
      LinesFirst(ls[0], Terminated(ls[1..]));
      LinesOfTerminated(ls[1..]);
      HeadTail(ls);
    }
  }

  /** A terminated line comes off first. */
  lemma LinesFirst(l: string, rest: string)
    requires NoCrlf(l)
    ensures Lines(l + CRLF + rest) == [l] + Lines(rest)
  {
    FindOwnCrlf(l, rest);
    hide FindCrlf, NoCrlf;
    var b := l + CRLF + rest;
    assert b[..|l|] == l && b[|l| + 2..] == rest;
  }

  lemma FirstLineHasNoCrlf(b: string)
    ensures NoCrlf(b[..FindCrlf(b)]) && (FindCrlf(b) == |b| ==> NoCrlf(b))
  {
    var k := FindCrlf(b);
    hide FindCrlf;
    forall j ensures !CrlfAt(b[..k], j) {
      if 0 <= j < k { assert !CrlfAt(b, j); }
    }
  }

  lemma {:induction false} LinesHaveNoCrlf(b: string)
    ensures forall l :: l in Lines(b) ==> NoCrlf(l)
  {
    if b != "" {
      var k := FindCrlf(b);
      FirstLineHasNoCrlf(b);
      hide FindCrlf, NoCrlf;
      if k < |b| {
        LinesHaveNoCrlf(b[k + 2..]);
      }
    }
  }

  lemma {:induction false} DropEmptyPrefix(ls: seq<string>)
    ensures DropEmpty(ls) <= ls
    ensures DropEmpty(ls) != [] ==> DropEmpty(ls)[|DropEmpty(ls)| - 1] != ""
  {
    if ls != [] && ls[|ls| - 1] == "" {
      DropEmptyPrefix(ls[..|ls| - 1]);
    }
  }

  /** Canonicalizing a canonical body changes nothing. */
  lemma CanonIsFixed(b: string)
    ensures Canon(Canon(b)) == Canon(b)
  {
    hide NoCrlf, Lines, CanonLine, Terminated;
    var ls := CanonLines(Lines(b));
    var kept := DropEmpty(ls);
    LinesHaveNoCrlf(b);
    DropEmptyPrefix(ls);
    forall i | 0 <= i < |ls| ensures NoCrlf(ls[i]) && CanonLine(ls[i]) == ls[i] {
      CanonLineFixed(Lines(b)[i]);
    }
    if kept == [] {
      CanonOfCrlf();
    } else {
      assert forall i :: 0 <= i < |kept| ==> kept[i] == ls[i];
      LinesOfTerminated(kept);
      assert CanonLines(kept) == kept;
    }
  }

  lemma CanonOfCrlf()
    ensures Canon(CRLF) == CRLF
  {
    assert Lines(CRLF) == [""] by {
      assert CRLF[..0] == "" && CRLF[2..] == "";
    }
    assert CanonLine("") == "";
    assert CanonLines([""]) == [""];
    assert [""][..0] == [];
  }

  // ---------------------------------------------------------------------
  // What canonicalization says of words and blank lines
  // ---------------------------------------------------------------------

  /** A word and the gap behind it. */
  datatype Word = Word(text: string, gap: string)

  function WordsText(ws: seq<Word>): string {
    if ws == [] then "" else WordsText(ws[..|ws| - 1]) + ws[|ws| - 1].text + ws[|ws| - 1].gap
  }

  /** The words, one space between them. */
  function WordsJoined(ws: seq<Word>): string {
    if ws == [] then ""
    else if |ws| == 1 then ws[0].text
    else WordsJoined(ws[..|ws| - 1]) + " " + ws[|ws| - 1].text
  }

  /** Words without white space, gaps of nothing else, empty at most the last. */
  ghost predicate ProperWords(ws: seq<Word>) {
    && (forall i :: 0 <= i < |ws| ==> ws[i].text != "" && NoWsp(ws[i].text) && OnlyWsp(ws[i].gap))
    && (forall i :: 0 <= i < |ws| - 1 ==> ws[i].gap != "")
  }

  predicate OnlyWsp(x: string) {
    forall k :: 0 <= k < |x| ==> x[k] == ' ' || x[k] == '\t'
  }

  predicate NoWsp(x: string) {
    forall k :: 0 <= k < |x| ==> x[k] != ' ' && x[k] != '\t'
  }

  lemma {:induction false} WrittenGap(a: string, gap: string)
    requires OnlyWsp(gap)
    ensures Written(a + gap) == Written(a) && Pending(a + gap) == (gap != "" || Pending(a))
    decreases gap
  {
    if gap == "" {
      assert a + gap == a;
    } else {
      var front, c := gap[..|gap| - 1], gap[|gap| - 1];
      WrittenGap(a, front);
      WrittenSnoc(a + front, c);
      assert a + front + [c] == a + gap;
    }
  }

  lemma {:induction false} WrittenWord(a: string, x: string)
    requires NoWsp(x) && x != ""
    ensures Written(a + x) == Written(a) + (if Pending(a) then " " else "") + x && !Pending(a + x)
    decreases x
  {
    var front, c := x[..|x| - 1], x[|x| - 1];
    WrittenSnoc(a + front, c);
    assert a + front + [c] == a + x;
    if front == "" {
      assert a + front == a && [c] == x;
    } else {
      WrittenWord(a, front);
      assert front + [c] == x;
    }
  }

  /** The canonical form of a line is its words with one space between them, and one
      in front where white space stands in front. */
  lemma {:induction false} CanonOfWords(gap: string, ws: seq<Word>)
    requires OnlyWsp(gap) && ProperWords(ws)
    ensures CanonLine(gap + WordsText(ws)) == (if gap != "" && ws != [] then " " else "") + WordsJoined(ws)
  {
    WrittenIsCanon(gap + WordsText(ws));
    WrittenWords(gap, ws);
  }

  lemma WordsUnfold(ws: seq<Word>)
    ensures ws == [] ==> WordsText(ws) == "" && WordsJoined(ws) == ""
    ensures ws != [] ==>
              var front, w := ws[..|ws| - 1], ws[|ws| - 1];
              && WordsText(ws) == WordsText(front) + w.text + w.gap
              && WordsJoined(ws) == WordsJoined(front) + (if front == [] then "" else " ") + w.text
  {
  }

  lemma WrittenPiece(a: string, w: Word)
    requires w.text != "" && NoWsp(w.text) && OnlyWsp(w.gap)
    ensures Written(a + w.text + w.gap) == Written(a) + (if Pending(a) then " " else "") + w.text
    ensures Pending(a + w.text + w.gap) == (w.gap != "")
  {
    hide Written, Pending;
    WrittenWord(a, w.text);
    WrittenGap(a + w.text, w.gap);
  }

  lemma {:induction false} WrittenWords(gap: string, ws: seq<Word>)
    requires OnlyWsp(gap) && ProperWords(ws)
    ensures Written(gap + WordsText(ws)) == (if gap != "" && ws != [] then " " else "") + WordsJoined(ws)
    ensures Pending(gap + WordsText(ws)) == if ws == [] then gap != "" else ws[|ws| - 1].gap != ""
    decreases |ws|
  {
    hide Written, Pending, WordsText, WordsJoined, NoWsp, OnlyWsp;
    WordsUnfold(ws);
    NoneWritten();
    if ws == [] {
      NoMore(gap);
      WrittenGap("", gap);
    } else {
      var front, w := ws[..|ws| - 1], ws[|ws| - 1];
      WrittenWords(gap, front);
      WrittenPiece(gap + WordsText(front), w);
      Assoc(gap, WordsText(front) + w.text, w.gap);
      Assoc(gap, WordsText(front), w.text);
      var lead := if gap != "" then " " else "";
      Assoc(lead, WordsJoined(front) + (if front == [] then "" else " "), w.text);
      Assoc(lead, WordsJoined(front), if front == [] then "" else " ");
      NoMore(WordsJoined(front));
      NoMore(lead);
      WordsUnfold(front);
    }
  }

  /** Lines whose canonical form is empty are dropped at the end of a body and kept
      before its last other line. */
  lemma CanonDropsTail(ls: seq<string>, tail: seq<string>)
    requires forall l :: l in ls + tail ==> NoCrlf(l)
    requires (ls != [] ==> CanonLine(ls[|ls| - 1]) != "") && forall t :: t in tail ==> CanonLine(t) == ""
    ensures Canon(Terminated(ls + tail)) == if ls == [] then CRLF else Terminated(CanonLines(ls))
  {
    hide NoCrlf, CanonLine, Lines, Terminated;
    LinesOfTerminated(ls + tail);
    var cs, ct := CanonLines(ls), CanonLines(tail);
    assert CanonLines(ls + tail) == cs + ct;
    forall i | 0 <= i < |ct| ensures ct[i] == "" { assert tail[i] in tail; }
    DropsEmpty(cs, ct);
  }

  lemma {:induction false} DropsEmpty(cs: seq<string>, ct: seq<string>)
    requires (cs != [] ==> cs[|cs| - 1] != "") && forall i :: 0 <= i < |ct| ==> ct[i] == ""
    ensures DropEmpty(cs + ct) == cs
    decreases |ct|
  {
    if ct == [] {
      assert cs + ct == cs;
    } else {
      assert (cs + ct)[..|cs + ct| - 1] == cs + ct[..|ct| - 1];
      DropsEmpty(cs, ct[..|ct| - 1]);
    }
  }

  /** A last line without its line end is canonicalized as with it. */
  lemma CanonUnterminated(ls: seq<string>, last: string)
    requires (forall l :: l in ls ==> NoCrlf(l)) && NoCrlf(last) && last != ""
    ensures Canon(Terminated(ls) + last) == Canon(Terminated(ls + [last]))
  {
    hide NoCrlf, CanonLine;
    LinesUnterminated(ls, last);
    LinesOfTerminated(ls + [last]);
    hide Lines, Terminated;
  }

  lemma {:induction false} LinesUnterminated(ls: seq<string>, last: string)
    requires (forall l :: l in ls ==> NoCrlf(l)) && NoCrlf(last) && last != ""
    ensures Lines(Terminated(ls) + last) == ls + [last]
    decreases |ls|
  {
    hide Lines, NoCrlf;
    if ls == [] {
      assert Terminated(ls) + last == last;
      OneLine(last);
    } else {
      TerminatedFront(ls);
      assert ls[0] in ls;
      hide Terminated;
      Assoc(ls[0] + CRLF, Terminated(ls[1..]), last);
      LinesFirst(ls[0], Terminated(ls[1..]) + last);
      LinesUnterminated(ls[1..], last);
      HeadTail(ls);
      Assoc([ls[0]], ls[1..], [last]);
    }
  }

  lemma OneLine(l: string)
    requires NoCrlf(l) && l != ""
    ensures Lines(l) == [l]
  {
    assert FindCrlf(l) == |l|;
  }
}
