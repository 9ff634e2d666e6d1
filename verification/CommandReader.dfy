/** The IMAP command reader: assembles commands from a stream cut anywhere,
    wrapping {n} literals into quoted strings under one byte budget. */
module CommandReader {
  import opened Common
  import opened Tokenizer

  const MAX_LINE: nat := 1000
  const SLACK: nat := 1024

  /** The budget of one assembled command. */
  function Limit(maxMsg: nat): nat {
    2 * maxMsg + SLACK
  }

  // ---------------------------------------------------------------------
  // Literal markers
  // ---------------------------------------------------------------------

  /** Start of the run of digits that ends at `e`. */
  function DigitsBack(l: string, e: nat): (r: nat)
    requires e <= |l|
    ensures r <= e
  {
    if e > 0 && IsDigit(l[e - 1]) then DigitsBack(l, e - 1) else e
  }

  /** Last '{' of a line, or its length. */
  function LastBrace(l: string, e: nat): (r: nat)
    requires e <= |l|
    ensures r < e ==> l[r] == '{'
    ensures r < e || r == |l|
  {
    if e == 0 then |l| else if l[e - 1] == '{' then e - 1 else LastBrace(l, e - 1)
  }

  /** imapd_lit_marker as the reader uses it: the line ends in {n+}, or in {n}
      with 0 < n <= 2^31 - 1. */
  predicate HasMarker(l: string) {
    && |l| > 0 && l[|l| - 1] == '}'
    && ((|l| >= 2 && l[|l| - 2] == '+')
        || var q := DigitsBack(l, |l| - 1);
           q > 0 && l[q - 1] == '{' && q < |l| - 1 && 0 < Number(l, q, 0) <= 0x7fff_ffff)
  }

  // ---------------------------------------------------------------------
  // The reader
  // ---------------------------------------------------------------------

  /** Unread bytes, the command so far, the literal bytes still to come (0: reading
      lines), whether the connection was refused, and the commands dispatched. */
  datatype Reader = Reader(inp: string, cmd: string, left: nat, closed: bool, done: seq<string>)

  datatype Move = Next(r: Reader) | Stop(r: Reader)

  function FindLf(s: string): (k: nat)
    ensures k <= |s|
    ensures k < |s| ==> s[k] == '\n'
    ensures forall j :: 0 <= j < k ==> s[j] != '\n'
  {
    if s == "" then 0 else if s[0] == '\n' then 0 else 1 + FindLf(s[1..])
  }

  /** The line before the LF at `k`, without its CR, as a C string. */
  function LineAt(s: string, k: nat): string
    requires k < |s|
  {
    CutNul(if k > 0 && s[k - 1] == '\r' then s[..k - 1] else s[..k])
  }

  function Refuse(r: Reader): Reader {
    r.(closed := true, cmd := "")
  }

  /** One turn of the loop of imap_process. */
  function Advance(r: Reader, maxMsg: nat): Move {
    if r.closed then Stop(r)
    else if r.left > 0 then AdvanceLiteral(r, maxMsg)
    else
      var k := FindLf(r.inp);
      if k == |r.inp| then
        if |r.inp| > MAX_LINE then Stop(r.(closed := true)) else Stop(r)
      else
        AdvanceLine(r.(inp := r.inp[k + 1..]), LineAt(r.inp, k), maxMsg)
  }

  /** Literal bytes at hand are escaped into the command; the last one closes the quotes. */
  function AdvanceLiteral(r: Reader, maxMsg: nat): Move
    requires r.left > 0
  {
    var take := if |r.inp| < r.left then |r.inp| else r.left;
    if |r.cmd| + 2 * take + 1 > Limit(maxMsg) then Stop(Refuse(r))
    else
      var cmd := r.cmd + Quote(r.inp[..take]);
      if take < r.left then Stop(r.(inp := r.inp[take..], cmd := cmd, left := r.left - take))
      else Next(r.(inp := r.inp[take..], cmd := cmd + "\"", left := 0))
  }

  lemma FindLfFrom(s: string, i: nat)
    requires i <= |s|
    ensures FindLf(s[i..]) == if i < |s| && s[i] != '\n' then 1 + FindLf(s[i + 1..]) else 0
  {
    if i < |s| { assert s[i..][1..] == s[i + 1..]; }
  }

  /** A complete line: a literal marker opens a literal, any other line ends the command. */
  function AdvanceLine(r: Reader, line: string, maxMsg: nat): Move {
    if HasMarker(line) then
      var open := LastBrace(line, |line|);
      if open == |line| then Next(r)
      else
        var sz := Number(line, open + 1, 0) % 0x1_0000_0000_0000_0000;
        if sz == 0 || sz > 0x7fff_ffff || sz > maxMsg then Stop(r.(closed := true))
        else if |r.cmd| + 2 * sz + |line| + 2 > Limit(maxMsg) then Stop(Refuse(r))
        else Next(r.(cmd := r.cmd + line[..open] + " \"", left := sz))
    else if |r.cmd| + |line| + 1 > Limit(maxMsg) then Stop(Refuse(r))
    else Next(r.(cmd := "", done := r.done + [r.cmd + line]))
  }

  lemma AdvanceConsumes(r: Reader, maxMsg: nat)
    requires Advance(r, maxMsg).Next?
    ensures |Advance(r, maxMsg).r.inp| < |r.inp|
  {
  }

  function Run(r: Reader, maxMsg: nat): Reader
    decreases |r.inp|
  {
    var m := Advance(r, maxMsg);
    if m.Stop? then m.r
    else
      AdvanceConsumes(r, maxMsg);
      Run(m.r, maxMsg)
  }

  /** Bytes arrive and are processed. */
  function Feed(r: Reader, chunk: string, maxMsg: nat): Reader {
    Run(r.(inp := r.inp + chunk), maxMsg)
  }

  // ---------------------------------------------------------------------
  // The budget
  // ---------------------------------------------------------------------

  /** The command fits the budget, and a literal that was admitted fits whole,
      even if every byte of it has to be escaped. */
  predicate Fits(r: Reader, maxMsg: nat) {
    |r.cmd| <= Limit(maxMsg) && (r.left > 0 ==> |r.cmd| + 2 * r.left + 1 <= Limit(maxMsg))
  }

  lemma AdvanceFits(r: Reader, maxMsg: nat)
    requires Fits(r, maxMsg)
    ensures Fits(Advance(r, maxMsg).r, maxMsg)
    ensures forall c :: c in Advance(r, maxMsg).r.done ==> c in r.done || |c| <= Limit(maxMsg)
    ensures r.left > 0 && !r.closed ==> !Advance(r, maxMsg).r.closed
  {
    hide AdvanceLine, AdvanceLiteral, FindLf, LineAt;
    if r.closed {
      return;
    } else if r.left > 0 {
      LiteralFits(r, maxMsg);
    } else {
      var k := FindLf(r.inp);
      if k < |r.inp| {
        LineFits(r.(inp := r.inp[k + 1..]), LineAt(r.inp, k), maxMsg);
      }
    }
  }

  lemma LiteralFits(r: Reader, maxMsg: nat)
    requires Fits(r, maxMsg) && r.left > 0
    ensures Fits(AdvanceLiteral(r, maxMsg).r, maxMsg) && AdvanceLiteral(r, maxMsg).r.done == r.done
    ensures !r.closed ==> !AdvanceLiteral(r, maxMsg).r.closed
  {
    hide Quote;
    var take := if |r.inp| < r.left then |r.inp| else r.left;
    QuoteLength(r.inp[..take]);
  }

  lemma LineFits(r: Reader, line: string, maxMsg: nat)
    requires Fits(r, maxMsg) && r.left == 0
    ensures Fits(AdvanceLine(r, line, maxMsg).r, maxMsg)
    ensures forall c :: c in AdvanceLine(r, line, maxMsg).r.done ==> c in r.done || |c| <= Limit(maxMsg)
  {
    hide HasMarker, Number, LastBrace;
  }

  /** In every run no assembled or dispatched command exceeds the budget. */
  lemma {:induction false} RunFits(r: Reader, maxMsg: nat)
    requires Fits(r, maxMsg)
    ensures Fits(Run(r, maxMsg), maxMsg)
    ensures forall c :: c in Run(r, maxMsg).done ==> c in r.done || |c| <= 2 * maxMsg + 1024
    decreases |r.inp|
  {
    AdvanceFits(r, maxMsg);
    var m := Advance(r, maxMsg);
    if m.Next? {
      AdvanceConsumes(r, maxMsg);
      RunFits(m.r, maxMsg);
    }
  }

  // ---------------------------------------------------------------------
  // Cutting the stream
  // ---------------------------------------------------------------------

  function More(r: Reader, b: string): Reader {
    r.(inp := r.inp + b)
  }

  lemma {:induction false} FindLfStable(s: string, b: string)
    requires FindLf(s) < |s|
    ensures FindLf(s + b) == FindLf(s)
  {
    if s[0] != '\n' {
      FindLfStable(s[1..], b);
      assert (s + b)[1..] == s[1..] + b;
    }
  }

  /** A line is handled alike whatever waits behind it. */
  lemma LineIsStable(r: Reader, line: string, b: string, maxMsg: nat)
    requires AdvanceLine(r, line, maxMsg).Next?
    ensures AdvanceLine(More(r, b), line, maxMsg) == Next(More(AdvanceLine(r, line, maxMsg).r, b))
  {
    hide HasMarker, Number, LastBrace;
  }

  /** A turn that goes on is the same turn when more bytes are waiting behind. */
  lemma NextIsStable(r: Reader, b: string, maxMsg: nat)
    requires Advance(r, maxMsg).Next?
    ensures Advance(More(r, b), maxMsg) == Next(More(Advance(r, maxMsg).r, b))
  {
    hide Quote, FindLf, CutNul, AdvanceLine;
    if r.left > 0 {
      assert (r.inp + b)[..r.left] == r.inp[..r.left];
      assert (r.inp + b)[r.left..] == r.inp[r.left..] + b;
    } else {
      var k := FindLf(r.inp);
      FindLfStable(r.inp, b);
      assert (r.inp + b)[..k] == r.inp[..k] && (k > 0 ==> (r.inp + b)[..k - 1] == r.inp[..k - 1]);
      assert (r.inp + b)[k + 1..] == r.inp[k + 1..] + b;
      LineIsStable(r.(inp := r.inp[k + 1..]), LineAt(r.inp, k), b, maxMsg);
    }
  }

  /** What is left of a reader that took all bytes at hand for its literal. */
  function Partial(r: Reader): Reader
    requires |r.inp| < r.left
  {
    r.(inp := "", cmd := r.cmd + Quote(r.inp), left := r.left - |r.inp|)
  }

  lemma PartialTurn(r: Reader, maxMsg: nat)
    requires Fits(r, maxMsg) && !r.closed && r.left > 0 && |r.inp| < r.left
    ensures Advance(r, maxMsg) == Stop(Partial(r)) && Fits(Partial(r), maxMsg)
  {
    QuoteLength(r.inp);
    assert r.inp[..|r.inp|] == r.inp && r.inp[|r.inp|..] == "";
  }

  /** A literal taken in two pieces is the literal taken at once. */
  lemma LiteralInPieces(r: Reader, b: string, maxMsg: nat)
    requires Fits(r, maxMsg) && !r.closed && r.left > 0 && |r.inp| < r.left
    ensures Advance(More(Partial(r), b), maxMsg) == Advance(More(r, b), maxMsg)
  {
    hide Quote, Advance;
    var s := Partial(r);
    PartialTurn(r, maxMsg);
    assert "" + b == b;
    var take := if |b| < s.left then |b| else s.left;
    var whole := r.inp + b;
    assert whole[..|r.inp| + take] == r.inp + b[..take];
    assert whole[|r.inp| + take..] == b[take..];
    QuoteJoin(r.inp, b[..take]);
    Assoc(r.cmd, Quote(r.inp), Quote(b[..take]));
    SamePiece(r, s, b, take, maxMsg);
  }

  lemma SamePiece(r: Reader, s: Reader, b: string, take: nat, maxMsg: nat)
    requires !r.closed && r.left > 0 && |r.inp| < r.left && s == Partial(r)
    requires take == if |b| < s.left then |b| else s.left
    requires Fits(r, maxMsg) && Fits(s, maxMsg)
    requires (r.inp + b)[|r.inp| + take..] == b[take..] && "" + b == b
    requires r.cmd + Quote((r.inp + b)[..|r.inp| + take]) == s.cmd + Quote(b[..take])
    ensures Advance(More(s, b), maxMsg) == Advance(More(r, b), maxMsg)
  {
    hide Quote;
  }

  lemma RunStep(r: Reader, maxMsg: nat)
    ensures Run(r, maxMsg) == var m := Advance(r, maxMsg); if m.Stop? then m.r else Run(m.r, maxMsg)
  {
  }

  /** The reader on which the run of `r` stops. */
  function StopsAt(r: Reader, maxMsg: nat): Reader
    decreases |r.inp|
  {
    var m := Advance(r, maxMsg);
    if m.Stop? then r
    else
      AdvanceConsumes(r, maxMsg);
      StopsAt(m.r, maxMsg)
  }

  /** Between literals, more than a line's worth of bytes and no LF among them. */
  predicate LineTooLong(r: Reader) {
    !r.closed && r.left == 0 && |r.inp| > MAX_LINE && FindLf(r.inp) == |r.inp|
  }

  /** The bytes at hand end in a line that is already too long. */
  predicate Overlong(r: Reader, maxMsg: nat) {
    LineTooLong(StopsAt(r, maxMsg))
  }

  /** A line that stops the reader stops it alike whatever waits behind it. */
  lemma LineStopIsStable(r: Reader, line: string, b: string, maxMsg: nat)
    requires AdvanceLine(r, line, maxMsg).Stop?
    ensures AdvanceLine(r, line, maxMsg).r.closed && AdvanceLine(r, line, maxMsg).r.inp == r.inp
    ensures AdvanceLine(More(r, b), line, maxMsg) == Stop(More(AdvanceLine(r, line, maxMsg).r, b))
  {
    hide HasMarker, Number, LastBrace;
  }

  lemma StopAtLine(r: Reader, b: string, maxMsg: nat)
    requires !r.closed && r.left == 0 && FindLf(r.inp) < |r.inp| && Advance(r, maxMsg).Stop?
    ensures Advance(r, maxMsg).r.closed
    ensures Advance(More(r, b), maxMsg) == Stop(More(Advance(r, maxMsg).r, b))
  {
    hide FindLf, CutNul, AdvanceLine;
    var k := FindLf(r.inp);
    FindLfStable(r.inp, b);
    assert (r.inp + b)[..k] == r.inp[..k] && (k > 0 ==> (r.inp + b)[..k - 1] == r.inp[..k - 1]);
    assert (r.inp + b)[k + 1..] == r.inp[k + 1..] + b;
    LineStopIsStable(r.(inp := r.inp[k + 1..]), LineAt(r.inp, k), b, maxMsg);
  }

  lemma FindLfIn(s: string)
    ensures '\n' in s <==> FindLf(s) < |s|
  {
  }

  /** A run never gives input back. */
  lemma {:induction false} RunShrinks(r: Reader, maxMsg: nat)
    ensures |Run(r, maxMsg).inp| <= |r.inp|
    decreases |r.inp|
  {
    hide AdvanceLine, Quote, FindLf, CutNul;
    AdvanceShrinks(r, maxMsg);
    var m := Advance(r, maxMsg);
    if m.Next? {
      AdvanceConsumes(r, maxMsg);
      hide Advance;
      RunShrinks(m.r, maxMsg);
    }
  }

  lemma AdvanceShrinks(r: Reader, maxMsg: nat)
    ensures |Advance(r, maxMsg).r.inp| <= |r.inp|
    ensures !r.closed && r.left == 0 && FindLf(r.inp) < |r.inp| ==> |Advance(r, maxMsg).r.inp| < |r.inp|
  {
    hide HasMarker, Number, LastBrace, FindLf, CutNul, Quote;
  }

  /** A line taken out of the input makes the run end with less of it. */
  lemma LineIsConsumed(r: Reader, maxMsg: nat)
    requires !r.closed && r.left == 0 && FindLf(r.inp) < |r.inp|
    ensures |Run(r, maxMsg).inp| < |r.inp|
  {
    AdvanceShrinks(r, maxMsg);
    RunStep(r, maxMsg);
    RunShrinks(Advance(r, maxMsg).r, maxMsg);
    hide Advance, Run;
  }

  lemma ClosedStays(r: Reader, maxMsg: nat)
    ensures r.closed ==> Run(r, maxMsg) == r && !Overlong(r, maxMsg)
  {
  }

  /** A turn that stops: cut there, the state is that of the uncut stream, unless
      the line was too long and its end is in the second part. */
  lemma StopIff(r: Reader, b: string, maxMsg: nat)
    requires Fits(r, maxMsg) && Advance(r, maxMsg).Stop?
    ensures Run(More(Advance(r, maxMsg).r, b), maxMsg) == Run(More(r, b), maxMsg)
       <==> !(LineTooLong(r) && '\n' in b)
  {
    hide AdvanceLine, AdvanceLiteral, Quote, FindLf, CutNul, Run, Fits;
    var s := Advance(r, maxMsg).r;
    if r.closed {
      return;
    } else if r.left > 0 {
      PartialOnly(r, maxMsg);
      PartialTurn(r, maxMsg);
      LiteralInPieces(r, b, maxMsg);
      RunStep(More(r, b), maxMsg);
      RunStep(More(s, b), maxMsg);
    } else if FindLf(r.inp) < |r.inp| {
      StopAtLine(r, b, maxMsg);
      RunStep(More(r, b), maxMsg);
      ClosedStays(More(s, b), maxMsg);
    } else if |r.inp| > MAX_LINE {
      OverlongStop(r, b, maxMsg);
    }
  }

  lemma OverlongStop(r: Reader, b: string, maxMsg: nat)
    requires LineTooLong(r)
    ensures Run(More(r.(closed := true), b), maxMsg) == Run(More(r, b), maxMsg) <==> '\n' !in b
  {
    hide AdvanceLine, CutNul, Run, FindLf;
    var s := r.(closed := true);
    ClosedStays(More(s, b), maxMsg);
    RunStep(More(r, b), maxMsg);
    FindLfIn(r.inp);
    FindLfIn(r.inp + b);
    if '\n' in b {
      LineIsConsumed(More(r, b), maxMsg);
    }
  }

  /** Feeding a stream in two parts is feeding it at once, commands, state and
      refusals alike, exactly unless the cut falls into a line that is already too
      long and the end of that line is in the second part. */
  lemma {:induction false} CutAnywhere(r: Reader, b: string, maxMsg: nat)
    requires Fits(r, maxMsg)
    ensures Run(More(Run(r, maxMsg), b), maxMsg) == Run(More(r, b), maxMsg)
       <==> !(Overlong(r, maxMsg) && '\n' in b)
    decreases |r.inp|
  {
    hide Advance, Fits, LineTooLong;
    RunStep(r, maxMsg);
    RunStep(More(r, b), maxMsg);
    var m := Advance(r, maxMsg);
    if m.Next? {
      AdvanceFits(r, maxMsg);
      AdvanceConsumes(r, maxMsg);
      NextIsStable(r, b, maxMsg);
      CutAnywhere(m.r, b, maxMsg);
    } else {
      StopIff(r, b, maxMsg);
    }
  }

  /** A literal turn that stops, and is not refused, ran out of bytes. */
  lemma PartialOnly(r: Reader, maxMsg: nat)
    requires Fits(r, maxMsg) && !r.closed && r.left > 0 && Advance(r, maxMsg).Stop?
    ensures |r.inp| < r.left
  {
    hide Quote;
  }

  /** What is at hand is processed, then each chunk as it arrives. */
  function FeedAll(r: Reader, chunks: seq<string>, maxMsg: nat): Reader
    decreases chunks
  {
    if chunks == [] then Run(r, maxMsg)
    else FeedAll(More(Run(r, maxMsg), chunks[0]), chunks[1..], maxMsg)
  }

  function Concat(chunks: seq<string>): string {
    if chunks == [] then "" else chunks[0] + Concat(chunks[1..])
  }

  /** Some cut falls into a line that is already too long and ends in a later chunk. */
  predicate Splits(r: Reader, chunks: seq<string>, maxMsg: nat)
    decreases chunks
  {
    chunks != []
    && ((Overlong(r, maxMsg) && '\n' in Concat(chunks))
        || Splits(More(Run(r, maxMsg), chunks[0]), chunks[1..], maxMsg))
  }

  lemma {:induction false} ClosedNeverSplits(r: Reader, chunks: seq<string>, maxMsg: nat)
    requires r.closed
    ensures !Splits(r, chunks, maxMsg)
    decreases chunks
  {
    if chunks != [] {
      ClosedStays(r, maxMsg);
      ClosedNeverSplits(More(r, chunks[0]), chunks[1..], maxMsg);
    }
  }

  lemma OverlongCloses(r: Reader, maxMsg: nat)
    requires Overlong(r, maxMsg)
    ensures Run(r, maxMsg).closed
    decreases |r.inp|
  {
    hide AdvanceLine, FindLf, CutNul, Quote;
    if Advance(r, maxMsg).Next? {
      AdvanceConsumes(r, maxMsg);
      OverlongCloses(Advance(r, maxMsg).r, maxMsg);
    }
  }

  lemma FitsWithInput(r: Reader, s: Reader, maxMsg: nat)
    requires Fits(r, maxMsg) && s == r.(inp := s.inp)
    ensures Fits(s, maxMsg)
  {
  }

  /** Every chunking of every stream ends in the state of a reader that got
      everything at once, exactly unless a cut splits an overlong line. */
  lemma {:induction false} ChunkingIsInvisible(r: Reader, chunks: seq<string>, maxMsg: nat)
    requires Fits(r, maxMsg)
    ensures FeedAll(r, chunks, maxMsg) == Run(More(r, Concat(chunks)), maxMsg) <==> !Splits(r, chunks, maxMsg)
    decreases chunks
  {
    hide Fits, Run, Overlong;
    if chunks == [] {
      assert r.inp + "" == r.inp;
    } else {
      var c, cs := chunks[0], chunks[1..];
      var q := Run(r, maxMsg);
      RunFits(r, maxMsg);
      FitsWithInput(q, More(q, c), maxMsg);
      ChunkingIsInvisible(More(q, c), cs, maxMsg);
      assert q.inp + c + Concat(cs) == q.inp + (c + Concat(cs));
      CutAnywhere(r, c + Concat(cs), maxMsg);
      if Overlong(r, maxMsg) {
        OverlongCloses(r, maxMsg);
        ClosedNeverSplits(More(q, c), cs, maxMsg);
      }
    }
  }

  /** The line limit is the one thing that depends on the cut: it is applied only
      while no LF is buffered. */
  lemma OverlongLineDependsOnCut(r: Reader, line: string, maxMsg: nat)
    requires r == Reader("", "", 0, false, []) && |line| > MAX_LINE && '\n' !in line
    requires |line| + 1 <= Limit(maxMsg) && '\0' !in line && line[|line| - 1] != '\r' && !HasMarker(line)
    ensures Feed(r, line, maxMsg).closed
    ensures Feed(r, line + "\n", maxMsg) == Reader("", "", 0, false, [line])
  {
    hide HasMarker, FindLf, LineAt;
    var s := line + "\n";
    assert "" + line == line && "" + s == s;
    LineIsRead(line);
    var t := Reader("", "", 0, false, [line]);
    assert [] + [line] == [line];
    assert r.(inp := r.inp + s) == Reader(s, "", 0, false, []);
    assert Advance(Reader(s, "", 0, false, []), maxMsg) == Next(t);
    RunStep(Reader(s, "", 0, false, []), maxMsg);
    RunStep(t, maxMsg);
  }

  lemma LineIsRead(line: string)
    requires line != "" && '\n' !in line && '\0' !in line && line[|line| - 1] != '\r'
    ensures FindLf(line) == FindLf(line + "\n") == |line|
    ensures LineAt(line + "\n", |line|) == line && (line + "\n")[|line| + 1..] == ""
  {
    hide FindLf, CutNul;
    var s := line + "\n";
    FindLfAppend(line, "\n");
    assert s[..|line|] == line && s[|line| - 1] == line[|line| - 1];
  }

  lemma {:induction false} FindLfAppend(s: string, b: string)
    requires '\n' !in s && b != "" && b[0] == '\n'
    ensures FindLf(s + b) == |s|
  {
    if s == "" {
      assert s + b == b;
    } else {
      FindLfAppend(s[1..], b);
      assert (s + b)[1..] == s[1..] + b;
    }
  }

  // ---------------------------------------------------------------------
  // What is a marker
  // ---------------------------------------------------------------------

  /** A line that ends in a number in braces announces a literal if and only if the
      number is neither 0 nor too large; such a line is a command line otherwise. */
  lemma MarkerIff(head: string, ds: string)
    requires ds != "" && forall k :: 0 <= k < |ds| ==> '0' <= ds[k] <= '9'
    ensures HasMarker(head + "{" + ds + "}") <==> 0 < Number(head + "{" + ds + "}", |head| + 1, 0) <= 0x7fff_ffff
  {
    hide HasMarker, Number;
    var l := head + "{" + ds + "}";
    var s, e := |head| + 1, |head| + 1 + |ds|;
    assert l[s - 1] == '{' && l[e] == '}';
    forall k | s <= k < e ensures IsDigit(l[k]) { assert l[k] == ds[k - s]; }
    MarkerShape(l, s, e);
  }

  lemma MarkerShape(l: string, s: nat, e: nat)
    requires 0 < s < e && e + 1 == |l| && l[e] == '}' && l[s - 1] == '{' && forall k :: s <= k < e ==> IsDigit(l[k])
    ensures HasMarker(l) <==> 0 < Number(l, s, 0) <= 0x7fff_ffff
  {
    DigitsBackTo(l, s, e);
    assert IsDigit(l[e - 1]);
    hide Number, DigitsBack;
  }

  lemma {:induction false} DigitsBackTo(l: string, s: nat, e: nat)
    requires 0 < s <= e <= |l| && !IsDigit(l[s - 1]) && forall k :: s <= k < e ==> IsDigit(l[k])
    ensures DigitsBack(l, e) == s
    decreases e - s
  {
    if s < e { DigitsBackTo(l, s, e - 1); }
  }

  /** A line that does not end in a brace, or ends in one behind something else, is no
      marker. */
  lemma NoMarker(head: string, c: char)
    requires c != '+' && c != '{' && !IsDigit(c)
    ensures !HasMarker(head + [c, '}']) && (c != '}' ==> !HasMarker(head + [c])) && !HasMarker("")
  {
    var l := head + [c, '}'];
    assert l[|head|] == c && l[|head| + 1] == '}';
  }

  /** A line is dropped, neither dispatched nor refused, if and only if it ends in
      "+}", as a marker does, and holds no opening brace. */
  lemma PlusLineIsDropped(r: Reader, line: string, maxMsg: nat)
    ensures AdvanceLine(r, line, maxMsg) == Next(r)
       <==> |line| >= 2 && line[|line| - 2..] == "+}" && '{' !in line
  {
    NoBrace(line, |line|);
    assert line[..|line|] == line;
    assert |line| >= 2 ==> line[|line| - 2..] == [line[|line| - 2], line[|line| - 1]];
    hide Number, DigitsBack;
    var m := AdvanceLine(r, line, maxMsg);
    if m.Next? && !HasMarker(line) { assert |m.r.done| == |r.done| + 1; }
    if m.Next? && HasMarker(line) && '{' in line { assert |m.r.cmd| > |r.cmd|; }
  }

  lemma {:induction false} NoBrace(l: string, e: nat)
    requires e <= |l|
    ensures '{' !in l[..e] <==> LastBrace(l, e) == |l|
  {
    if e > 0 {
      assert l[..e] == l[..e - 1] + [l[e - 1]];
      NoBrace(l, e - 1);
    }
  }

  // ---------------------------------------------------------------------
  // A literal comes out as it went in
  // ---------------------------------------------------------------------

  /** The bytes of an admitted literal, arriving in full, end up quoted in the command. */
  lemma LiteralIsWrapped(r: Reader, x: string, rest: string, maxMsg: nat)
    requires Fits(r, maxMsg) && !r.closed && r.left == |x| > 0 && r.inp == x + rest
    ensures Run(r, maxMsg) == Run(r.(inp := rest, cmd := r.cmd + Quote(x) + "\"", left := 0), maxMsg)
  {
    assert r.inp[..|x|] == x && r.inp[|x|..] == rest;
  }

  /** A line that announces a literal of `n` bytes: head{n}, or head{n+}. */
  function MarkerLine(head: string, n: nat, plus: bool): string {
    head + ("{" + (Digits(n) + if plus then "+}" else "}"))
  }

  lemma {:induction false} DigitsBackOver(l: string, i: nat, e: nat)
    requires i <= e <= |l| && (forall k :: i <= k < e ==> IsDigit(l[k])) && (i > 0 ==> !IsDigit(l[i - 1]))
    ensures DigitsBack(l, e) == i
    decreases e - i
  {
    if i < e { DigitsBackOver(l, i, e - 1); }
  }

  lemma {:induction false} LastBraceAt(l: string, i: nat, e: nat)
    requires i < e <= |l| && l[i] == '{' && forall k :: i < k < e ==> l[k] != '{'
    ensures LastBrace(l, e) == i
    decreases e - i
  {
    if i + 1 < e { LastBraceAt(l, i, e - 1); }
  }

  /** Where the parts of a marker line stand. */
  lemma MarkerLayout(head: string, n: nat, plus: bool)
    ensures var l, p := MarkerLine(head, n, plus), |head| + 1;
            var e := p + |Digits(n)|;
            && |l| == e + (if plus then 2 else 1)
            && TextAt(l, p, Digits(n)) && l[..|head|] == head && l[|head|] == '{'
            && l[|l| - 1] == '}' && (plus ==> l[|l| - 2] == '+') && (!plus ==> l[e] == '}')
            && (forall k :: p <= k < e ==> IsDigit(l[k])) && !DigitAt(l, e)
  {
    hide Digits, TextAt;
    var l, p, end := MarkerLine(head, n, plus), |head| + 1, if plus then "+}" else "}";
    var e := p + |Digits(n)|;
    assert l == head + ("{" + (Digits(n) + end));
    hide MarkerLine;
    TextAtSelf(l);
    TextAtJoin(l, 0, head, "{" + (Digits(n) + end));
    TextAtJoin(l, |head|, "{", Digits(n) + end);
    TextAtJoin(l, p, Digits(n), end);
    TextAtHead(l, |head|, "{");
    TextAtSlice(l, 0, head);
    TextAtDigits(l, p, n);
    MarkerEnd(l, e, end);
  }

  lemma MarkerEnd(l: string, e: nat, end: string)
    requires TextAt(l, e, end) && e + |end| == |l| && (end == "+}" || end == "}")
    ensures l[e] == end[0] && l[|l| - 1] == '}' && !DigitAt(l, e)
  {
    assert l[e + 0] == end[0] && l[e + (|end| - 1)] == end[|end| - 1];
  }

  lemma TextAtDigits(l: string, p: nat, n: nat)
    requires TextAt(l, p, Digits(n))
    ensures forall k :: p <= k < p + |Digits(n)| ==> IsDigit(l[k])
  {
    forall k | p <= k < p + |Digits(n)| ensures IsDigit(l[k]) {
      assert l[p + (k - p)] == Digits(n)[k - p];
    }
  }

  /** The reader recognizes the marker, strips it, and reads the announced length. */
  lemma MarkerIsRead(head: string, n: nat, plus: bool)
    requires 0 < n <= 0x7fff_ffff
    ensures var l := MarkerLine(head, n, plus);
            && HasMarker(l) && LastBrace(l, |l|) == |head| < |l| && l[..|head|] == head
            && Number(l, |head| + 1, 0) == n
  {
    MarkerNumber(head, n, plus);
    hide *;
  }

  lemma MarkerNumber(head: string, n: nat, plus: bool)
    requires plus || 0 < n <= 0x7fff_ffff
    ensures var l := MarkerLine(head, n, plus);
            && HasMarker(l) && LastBrace(l, |l|) == |head| < |l| && l[..|head|] == head
            && Number(l, |head| + 1, 0) == n
  {
    var l, p := MarkerLine(head, n, plus), |head| + 1;
    MarkerLayout(head, n, plus);
    hide MarkerLine, TextAt, Digits;
    DigitsEndAfter(l, p, n);
    LastBraceAt(l, |head|, |l|);
    if !plus { DigitsBackOver(l, p, |l| - 1); }
    hide Number, LastBrace, DigitsBack;
  }

  /** A literal of no bytes or of more than the limits allow closes the connection,
      one that would overflow the budget refuses the command, any other one opens. */
  lemma MarkerDecides(r: Reader, head: string, n: nat, plus: bool, maxMsg: nat)
    requires n < 0x1_0000_0000_0000_0000 && (plus || 0 < n <= 0x7fff_ffff)
    ensures var l := MarkerLine(head, n, plus);
            AdvanceLine(r, l, maxMsg) ==
            if n == 0 || n > 0x7fff_ffff || n > maxMsg then Stop(r.(closed := true))
            else if |r.cmd| + 2 * n + |l| + 2 > 2 * maxMsg + 1024 then Stop(r.(closed := true, cmd := ""))
            else Next(r.(cmd := r.cmd + head + " \"", left := n))
  {
    MarkerNumber(head, n, plus);
    hide MarkerLine, HasMarker, LastBrace, Number;
  }

  lemma {:induction false} DigitsPrintable(n: nat)
    ensures '\n' !in Digits(n) && '\0' !in Digits(n)
  {
    if n >= 10 { DigitsPrintable(n / 10); }
  }

  lemma MarkerIsOneLine(head: string, n: nat, plus: bool)
    requires '\n' !in head && '\0' !in head
    ensures '\n' !in MarkerLine(head, n, plus) && '\0' !in MarkerLine(head, n, plus)
  {
    DigitsPrintable(n);
    hide Digits;
  }

  /** A text without LF and its CRLF are taken as one line. */
  lemma LineIsTaken(l: string, rest: string)
    requires '\n' !in l && '\0' !in l
    ensures var s := l + "\r\n" + rest;
            && FindLf(s) == |l| + 1 && LineAt(s, |l| + 1) == l && s[|l| + 2..] == rest
  {
    var s := l + "\r\n" + rest;
    assert s == (l + "\r") + ("\n" + rest);
    FindLfAppend(l + "\r", "\n" + rest);
    assert s[..|l|] == l && s[|l|] == '\r';
  }

  /** The line of a marker opens its literal. */
  lemma MarkerOpens(cmd: string, head: string, n: nat, plus: bool, rest: string, done: seq<string>, maxMsg: nat)
    requires '\n' !in head && '\0' !in head && 0 < n <= 0x7fff_ffff && n <= maxMsg
    requires |cmd| + 2 * n + |MarkerLine(head, n, plus)| + 2 <= Limit(maxMsg)
    ensures var inp := MarkerLine(head, n, plus) + "\r\n" + rest;
            Advance(Reader(inp, cmd, 0, false, done), maxMsg)
            == Next(Reader(rest, cmd + head + " \"", n, false, done))
  {
    hide MarkerLine, HasMarker, LastBrace, Number, FindLf, LineAt;
    var l := MarkerLine(head, n, plus);
    MarkerIsRead(head, n, plus);
    MarkerIsOneLine(head, n, plus);
    LineIsTaken(l, rest);
    var r := Reader(rest, cmd, 0, false, done);
    assert AdvanceLine(r, l, maxMsg) == Next(Reader(rest, cmd + head + " \"", n, false, done));
    hide AdvanceLine;
    assert |l + "\r\n" + rest| == |l| + 2 + |rest|;
  }

  /** The stream of a command with one literal, from its marker line on. */
  function LiteralStream(head: string, x: string, plus: bool, tail: string): string {
    MarkerLine(head, |x|, plus) + "\r\n" + (x + tail)
  }

  /** A literal the reader admits: announced within its limits, with a last line
      that is no marker and fits the budget. */
  predicate Admitted(cmd: string, head: string, x: string, plus: bool, tail: string, maxMsg: nat) {
    && '\n' !in head && '\0' !in head && 0 < |x| <= 0x7fff_ffff && |x| <= maxMsg
    && |tail| > 0 && tail[|tail| - 1] == '\n' && '\n' !in tail[..|tail| - 1] && !HasMarker(LineAt(tail, |tail| - 1))
    && |cmd| + 2 * |x| + |MarkerLine(head, |x|, plus)| + 2 <= 2 * maxMsg + 1024
    && |cmd| + |head| + 2 + 2 * |x| + 1 + |tail| <= 2 * maxMsg + 1024
  }

  /** What is dispatched for it. */
  function Assembled(cmd: string, head: string, x: string, tail: string): string
    requires |tail| > 0
  {
    cmd + head + " \"" + Quote(x) + "\"" + LineAt(tail, |tail| - 1)
  }

  /** The last line dispatches the command. */
  lemma TailDispatches(cmd: string, tail: string, done: seq<string>, maxMsg: nat)
    requires |tail| > 0 && tail[|tail| - 1] == '\n' && '\n' !in tail[..|tail| - 1]
    requires !HasMarker(LineAt(tail, |tail| - 1))
    requires |cmd| + |tail| <= Limit(maxMsg)
    ensures Run(Reader(tail, cmd, 0, false, done), maxMsg)
            == Reader("", "", 0, false, done + [cmd + LineAt(tail, |tail| - 1)])
  {
    var s := Reader(tail, cmd, 0, false, done);
    var t := Reader("", "", 0, false, done + [cmd + LineAt(tail, |tail| - 1)]);
    TailLine(tail);
    assert tail[|tail| - 1 + 1..] == "";
    hide HasMarker, LineAt;
    assert Advance(s, maxMsg) == Next(t);
    assert Run(t, maxMsg) == t;
    RunStep(s, maxMsg);
  }

  /** Fed at once, from the marker line to the dispatched command. */
  lemma LiteralRun(cmd: string, head: string, x: string, plus: bool, tail: string, done: seq<string>, maxMsg: nat)
    requires Admitted(cmd, head, x, plus, tail, maxMsg)
    ensures Run(Reader(LiteralStream(head, x, plus, tail), cmd, 0, false, done), maxMsg)
            == Reader("", "", 0, false, done + [Assembled(cmd, head, x, tail)])
  {
    var r0 := Reader(LiteralStream(head, x, plus, tail), cmd, 0, false, done);
    var r1 := Reader(x + tail, cmd + head + " \"", |x|, false, done);
    var r2 := Reader(tail, cmd + head + " \"" + Quote(x) + "\"", 0, false, done);
    MarkerOpens(cmd, head, |x|, plus, x + tail, done, maxMsg);
    RunStep(r0, maxMsg);
    hide MarkerLine, HasMarker, Advance, Run, LineAt;
    QuoteLength(x);
    LiteralIsWrapped(r1, x, tail, maxMsg);
    TailDispatches(r2.cmd, tail, done, maxMsg);
  }

  /** However the stream of a command with a literal is cut, unless a cut splits an
      overlong line, one command is dispatched, and its token at the place of the
      marker is exactly the literal. */
  lemma LiteralSurvives(cmd: string, head: string, x: string, plus: bool, tail: string, done: seq<string>,
                        chunks: seq<string>, maxMsg: nat)
    requires Admitted(cmd, head, x, plus, tail, maxMsg)
    requires Concat(chunks) == LiteralStream(head, x, plus, tail)
    requires !Splits(Reader("", cmd, 0, false, done), chunks, maxMsg)
    ensures var r := FeedAll(Reader("", cmd, 0, false, done), chunks, maxMsg);
            && r == Reader("", "", 0, false, done + [Assembled(cmd, head, x, tail)])
            && ('\0' !in cmd ==> Reads(Assembled(cmd, head, x, tail), |cmd + head|, ReadBack(x, |cmd + head|)))
  {
    hide MarkerLine, HasMarker, Run, LineAt, LiteralStream, Splits, FeedAll, Quote, NextAstring;
    var r := Reader("", cmd, 0, false, done);
    ChunkingIsInvisible(r, chunks, maxMsg);
    assert "" + Concat(chunks) == Concat(chunks);
    LiteralRun(cmd, head, x, plus, tail, done, maxMsg);
    if '\0' !in cmd { AssembledToken(cmd, head, x, tail); }
  }

  /** The token that a command, as a C string, has at an offset. */
  predicate Reads(cmd: string, n: nat, t: Token) {
    n <= |CutNul(cmd)| && NextAstring(CutNul(cmd), n) == t
  }

  /** The literal is the token at the place of its marker, unless it holds a NUL. */
  lemma AssembledToken(cmd: string, head: string, x: string, tail: string)
    requires |tail| > 0 && '\0' !in cmd + head
    ensures Reads(Assembled(cmd, head, x, tail), |cmd + head|, ReadBack(x, |cmd + head|))
  {
    hide LineAt, Quote, NextAstring;
    LiteralRoundTrip(cmd + head, x, LineAt(tail, |tail| - 1));
  }

  /** A cut that splits no overlong line leaves the same overlong lines behind it. */
  lemma {:induction false} OverlongCut(r: Reader, b: string, maxMsg: nat)
    requires Fits(r, maxMsg) && !Overlong(r, maxMsg)
    ensures Overlong(More(Run(r, maxMsg), b), maxMsg) == Overlong(More(r, b), maxMsg)
    decreases |r.inp|
  {
    hide Fits, LineTooLong;
    var m := Advance(r, maxMsg);
    StopsStep(r, maxMsg);
    StopsStep(More(r, b), maxMsg);
    RunStep(r, maxMsg);
    hide Advance, StopsAt, Run;
    if m.Next? {
      AdvanceFits(r, maxMsg);
      AdvanceConsumes(r, maxMsg);
      NextIsStable(r, b, maxMsg);
      OverlongCut(m.r, b, maxMsg);
    } else {
      OverlongStopCut(r, b, maxMsg);
    }
  }

  lemma StopsStep(r: Reader, maxMsg: nat)
    ensures StopsAt(r, maxMsg) == var m := Advance(r, maxMsg); if m.Stop? then r else StopsAt(m.r, maxMsg)
  {
  }

  lemma OverlongStopCut(r: Reader, b: string, maxMsg: nat)
    requires Fits(r, maxMsg) && !LineTooLong(r) && Advance(r, maxMsg).Stop?
    ensures Overlong(More(Advance(r, maxMsg).r, b), maxMsg) == Overlong(More(r, b), maxMsg)
  {
    hide AdvanceLine, AdvanceLiteral, Quote, FindLf, CutNul, StopsAt, Fits;
    var s := Advance(r, maxMsg).r;
    StopsStep(More(r, b), maxMsg);
    StopsStep(More(s, b), maxMsg);
    if r.closed {
      return;
    } else if r.left > 0 {
      PartialOnly(r, maxMsg);
      PartialTurn(r, maxMsg);
      LiteralInPieces(r, b, maxMsg);
    } else if FindLf(r.inp) < |r.inp| {
      StopAtLine(r, b, maxMsg);
      FindLfIn(r.inp);
      FindLfIn(r.inp + b);
    }
  }

  /** No prefix of the stream ends in an overlong line. */
  ghost predicate ShortLines(r: Reader, stream: string, maxMsg: nat) {
    forall n :: 0 <= n <= |stream| ==> !Overlong(More(r, stream[..n]), maxMsg)
  }

  /** Then no chunking splits one. */
  lemma {:induction false} ShortLinesNeverSplit(r: Reader, chunks: seq<string>, maxMsg: nat)
    requires Fits(r, maxMsg) && ShortLines(r, Concat(chunks), maxMsg)
    ensures !Splits(r, chunks, maxMsg)
    decreases chunks
  {
    hide Fits, Overlong, Run;
    var stream := Concat(chunks);
    assert !Overlong(More(r, stream[..0]), maxMsg);
    assert r.inp + stream[..0] == r.inp;
    if chunks != [] {
      var c, cs, q := chunks[0], chunks[1..], Run(r, maxMsg);
      RunFits(r, maxMsg);
      FitsWithInput(q, More(q, c), maxMsg);
      var more := Concat(cs);
      forall n | 0 <= n <= |more| ensures !Overlong(More(More(q, c), more[..n]), maxMsg) {
        OverlongCut(r, c + more[..n], maxMsg);
        assert stream[..|c| + n] == c + more[..n];
        assert q.inp + c + more[..n] == q.inp + (c + more[..n]);
      }
      ShortLinesNeverSplit(More(q, c), cs, maxMsg);
    }
  }

  /** A literal's bytes and the beginning of its last line. */
  lemma LiteralPrefix(cmd: string, x: string, tail: string, n: nat, done: seq<string>, maxMsg: nat)
    requires Fits(Reader("", cmd, |x|, false, done), maxMsg) && 0 < |x| && n <= |x + tail|
    requires |tail| > 0 && tail[|tail| - 1] == '\n' && '\n' !in tail[..|tail| - 1] && |tail| <= MAX_LINE + 1
    requires !HasMarker(LineAt(tail, |tail| - 1)) && |cmd| + 2 * |x| + 1 + |tail| <= Limit(maxMsg)
    ensures !Overlong(Reader((x + tail)[..n], cmd, |x|, false, done), maxMsg)
  {
    hide HasMarker, LineAt, Quote;
    var r := Reader((x + tail)[..n], cmd, |x|, false, done);
    StopsStep(r, maxMsg);
    if n < |x| {
      PartialTurn(r, maxMsg);
    } else {
      var t := tail[..n - |x|];
      assert r.inp == x + t && r.inp[..|x|] == x && r.inp[|x|..] == t;
      QuoteLength(x);
      var s := Reader(t, cmd + Quote(x) + "\"", 0, false, done);
      assert Advance(r, maxMsg) == Next(s);
      TailPrefix(s, tail, n - |x|, maxMsg);
    }
  }

  lemma TailPrefix(s: Reader, tail: string, n: nat, maxMsg: nat)
    requires !s.closed && s.left == 0 && n <= |tail| && s.inp == tail[..n] && |s.cmd| + |tail| <= Limit(maxMsg)
    requires |tail| > 0 && tail[|tail| - 1] == '\n' && '\n' !in tail[..|tail| - 1] && |tail| <= MAX_LINE + 1
    requires !HasMarker(LineAt(tail, |tail| - 1))
    ensures !Overlong(s, maxMsg)
  {
    hide HasMarker, LineAt;
    StopsStep(s, maxMsg);
    if n == |tail| {
      assert tail[..n] == tail && tail[|tail| - 1 + 1..] == "";
      TailLine(tail);
      var t := Reader("", "", 0, false, s.done + [s.cmd + LineAt(tail, |tail| - 1)]);
      assert Advance(s, maxMsg) == Next(t);
      StopsStep(t, maxMsg);
    } else {
      FindLfIn(s.inp);
      assert '\n' !in s.inp;
    }
  }

  /** A command with a literal whose two lines are no longer than a line may be is
      read under every chunking. */
  lemma LiteralHasShortLines(cmd: string, head: string, x: string, plus: bool, tail: string, done: seq<string>,
                             maxMsg: nat)
    requires Admitted(cmd, head, x, plus, tail, maxMsg)
    requires |MarkerLine(head, |x|, plus)| < MAX_LINE && |tail| <= MAX_LINE + 1
    ensures ShortLines(Reader("", cmd, 0, false, done), LiteralStream(head, x, plus, tail), maxMsg)
  {
    var r, l := Reader("", cmd, 0, false, done), MarkerLine(head, |x|, plus);
    var stream := LiteralStream(head, x, plus, tail);
    forall n | 0 <= n <= |stream| ensures !Overlong(More(r, stream[..n]), maxMsg) {
      StreamPrefix(cmd, head, x, plus, tail, done, n, maxMsg);
    }
  }

  lemma StreamPrefix(cmd: string, head: string, x: string, plus: bool, tail: string, done: seq<string>, n: nat,
                     maxMsg: nat)
    requires Admitted(cmd, head, x, plus, tail, maxMsg) && n <= |LiteralStream(head, x, plus, tail)|
    requires |MarkerLine(head, |x|, plus)| < MAX_LINE && |tail| <= MAX_LINE + 1
    ensures !Overlong(More(Reader("", cmd, 0, false, done), LiteralStream(head, x, plus, tail)[..n]), maxMsg)
  {
    hide HasMarker, LineAt, Overlong;
    var l, stream := MarkerLine(head, |x|, plus), LiteralStream(head, x, plus, tail);
    var p := stream[..n];
    assert "" + p == p;
    var r := Reader(p, cmd, 0, false, done);
    MarkerIsOneLine(head, |x|, plus);
    hide MarkerLine;
    if n <= |l| + 1 {
      assert p == (l + "\r")[..n];
      ShortStop(r, maxMsg);
    } else {
      var k := n - |l| - 2;
      assert p == l + "\r\n" + (x + tail)[..k];
      MarkerOpens(cmd, head, |x|, plus, (x + tail)[..k], done, maxMsg);
      OverlongNext(r, maxMsg);
      LiteralPrefix(cmd + head + " \"", x, tail, k, done, maxMsg);
    }
  }

  lemma ShortStop(r: Reader, maxMsg: nat)
    requires !r.closed && r.left == 0 && '\n' !in r.inp && |r.inp| <= MAX_LINE
    ensures !Overlong(r, maxMsg)
  {
    FindLfIn(r.inp);
  }

  lemma OverlongNext(r: Reader, maxMsg: nat)
    requires Advance(r, maxMsg).Next?
    ensures Overlong(r, maxMsg) == Overlong(Advance(r, maxMsg).r, maxMsg)
  {
  }

  /** So under every chunking the dispatched command holds exactly the literal. */
  lemma LiteralSurvivesAnyChunking(cmd: string, head: string, x: string, plus: bool, tail: string, done: seq<string>,
                                   chunks: seq<string>, maxMsg: nat)
    requires Admitted(cmd, head, x, plus, tail, maxMsg)
    requires |MarkerLine(head, |x|, plus)| < MAX_LINE && |tail| <= MAX_LINE + 1
    requires Concat(chunks) == LiteralStream(head, x, plus, tail)
    ensures var r := FeedAll(Reader("", cmd, 0, false, done), chunks, maxMsg);
            && r == Reader("", "", 0, false, done + [Assembled(cmd, head, x, tail)])
            && ('\0' !in cmd ==> Reads(Assembled(cmd, head, x, tail), |cmd + head|, ReadBack(x, |cmd + head|)))
  {
    LiteralHasShortLines(cmd, head, x, plus, tail, done, maxMsg);
    hide MarkerLine, ShortLines, FeedAll, LiteralStream, HasMarker, LineAt, Assembled, Splits;
    ShortLinesNeverSplit(Reader("", cmd, 0, false, done), chunks, maxMsg);
    LiteralSurvives(cmd, head, x, plus, tail, done, chunks, maxMsg);
  }

  lemma TailLine(tail: string)
    requires |tail| > 0 && tail[|tail| - 1] == '\n' && '\n' !in tail[..|tail| - 1]
    ensures FindLf(tail) == |tail| - 1 && |LineAt(tail, |tail| - 1)| <= |tail| - 1
  {
    var n := |tail| - 1;
    assert tail == tail[..n] + [tail[n]];
    FindLfAppend(tail[..n], [tail[n]]);
  }

  // ---------------------------------------------------------------------
  // The loop of the source
  // ---------------------------------------------------------------------

  class Conn {
    const maxMsg: nat
    var inbuf: string
    var cmd: string
    var litLeft: nat
    var closed: bool
    var dispatched: seq<string>

    ghost function State(): Reader
      reads this
    {
      Reader(inbuf, cmd, litLeft, closed, dispatched)
    }

    constructor (maxMsg: nat)
      ensures State() == Reader("", "", 0, false, []) && this.maxMsg == maxMsg
    {
      this.maxMsg := maxMsg;
      inbuf, cmd, litLeft, closed, dispatched := "", "", 0, false, [];
    }

    /** Escape the next `take` bytes into the command. */
    method TakeLiteral(take: nat)
      requires take <= |inbuf| && take <= litLeft
      modifies this
      ensures inbuf == old(inbuf)[take..] && litLeft == old(litLeft) - take
      ensures cmd == old(cmd) + Quote(old(inbuf)[..take])
      ensures closed == old(closed) && dispatched == old(dispatched)
    {
      var k := 0;
      while k < take
        invariant k <= take && cmd == old(cmd) + Quote(inbuf[..k])
        modifies this`cmd
      {
        var ch := inbuf[k];
        assert inbuf[..k + 1][..k] == inbuf[..k];
        if ch == '"' || ch == '\\' {
          cmd := cmd + ['\\', ch];
        } else {
          cmd := cmd + [ch];
        }
        k := k + 1;
      }
      inbuf := inbuf[take..];
      litLeft := litLeft - take;
    }

    /** One turn of imap_process; `more` says that the loop goes on. */
    method Turn() returns (more: bool)
      modifies this
      ensures Advance(old(State()), maxMsg) == if more then Next(State()) else Stop(State())
    {
      hide Quote, HasMarker, Number, LastBrace, CutNul, AdvanceLine, FindLf;
      if closed { return false; }
      if litLeft > 0 {
        var take := if |inbuf| < litLeft then |inbuf| else litLeft;
        if |cmd| + 2 * take + 1 > 2 * maxMsg + SLACK {
          closed, cmd := true, "";
          return false;
        }
        TakeLiteral(take);
        if litLeft > 0 { return false; }
        cmd := cmd + "\"";
        return true;
      }
      var i := 0;
      while i < |inbuf| && inbuf[i] != '\n'
        invariant unchanged(this)
        invariant i <= |inbuf| && FindLf(inbuf) == i + FindLf(inbuf[i..])
      {
        FindLfFrom(inbuf, i);
        i := i + 1;
      }
      FindLfFrom(inbuf, i);
      if i == |inbuf| {
        if |inbuf| > MAX_LINE { closed := true; }
        return false;
      }
      var line := LineAt(inbuf, i);
      inbuf := inbuf[i + 1..];
      more := HandleLine(line);
    }

    method HandleLine(line: string) returns (more: bool)
      requires !closed && litLeft == 0
      modifies this
      ensures AdvanceLine(old(State()), line, maxMsg) == if more then Next(State()) else Stop(State())
    {
      if HasMarker(line) {
        var open := LastBrace(line, |line|);
        if open == |line| { return true; }
        var sz := Number(line, open + 1, 0) % 0x1_0000_0000_0000_0000;
        if sz == 0 || sz > 0x7fff_ffff || sz > maxMsg {
          closed := true;
          return false;
        }
        if |cmd| + 2 * sz + |line| + 2 > 2 * maxMsg + SLACK {
          closed, cmd := true, "";
          return false;
        }
        cmd := cmd + line[..open] + " \"";
        litLeft := sz;
        return true;
      }
      if |cmd| + |line| + 1 > 2 * maxMsg + SLACK {
        closed, cmd := true, "";
        return false;
      }
      dispatched := dispatched + [cmd + line];
      cmd := "";
      more := true;
    }

    /** imap_process */
    method Process()
      modifies this
      ensures State() == Run(old(State()), maxMsg)
    {
      var more := true;
      while more
        invariant more ==> Run(State(), maxMsg) == Run(old(State()), maxMsg)
        invariant !more ==> State() == Run(old(State()), maxMsg)
        decreases more, |inbuf|
      {
        ghost var s := State();
        more := Turn();
        if more { AdvanceConsumes(s, maxMsg); }
      }
    }
  }
}
