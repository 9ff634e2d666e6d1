/** The header block of a message as the DKIM signer and verifier read it, and
    the relaxed form of one header. */
module DkimHeader {
  import opened Common
  import opened DkimBody

  /** Folding whitespace: space, tab and the bytes of a line break. */
  predicate IsFws(c: char) {
    IsWsp(c) || IsBreak(c)
  }

  // ---------------------------------------------------------------------
  // Relaxed form
  // ---------------------------------------------------------------------

  /** Every run of folding whitespace is one space, none at either end. */
  function RelaxedValue(v: string): string
    decreases |v|, 0
  {
    if v == "" then ""
    else
      var front, c := v[..|v| - 1], v[|v| - 1];
      if IsFws(c) then RelaxedValue(front)
      else RelaxedValue(front) + (if Owes(front) then " " else "") + [c]
  }

  /** A space is due before the next byte of the value. */
  predicate Owes(v: string)
    decreases |v|, 1
  {
    v != "" && IsFws(v[|v| - 1]) && RelaxedValue(v) != ""
  }

  /** The canonical header, without a line end. */
  function Relaxed(hdr: string, colon: nat): string
    requires colon < |hdr|
  {
    Fold(hdr[..colon]) + ":" + RelaxedValue(hdr[colon + 1..])
  }

  lemma RelaxedStep(read: string, c: char)
    ensures RelaxedValue(read + [c])
         == RelaxedValue(read) + if IsFws(c) then "" else (if Owes(read) then " " else "") + [c]
    ensures Owes(read + [c]) == (IsFws(c) && RelaxedValue(read) != "")
  {
    assert (read + [c])[..|read|] == read;
  }

  /** The value loop of relaxed_header with its two flags; a line break swallows
      the whitespace behind it. */
  method RelaxValue(v: string) returns (val: string)
    ensures val == RelaxedValue(v)
  {
    hide RelaxedValue, Owes;
    val := "";
    var seen, pending, i := false, false, 0;
    NothingRelaxed();
    while i < |v|
      invariant i <= |v|
      invariant val == RelaxedValue(v[..i])
      invariant seen == (val != "") && (pending ==> seen)
      invariant pending == Owes(v[..i])
    {
      var c := v[i];
      ReadOne(v, i);
      if IsBreak(c) {
        if c == '\r' && i + 1 < |v| && v[i + 1] == '\n' {
          ReadOne(v, i + 1);
          i := i + 2;
        } else {
          i := i + 1;
        }
        while i < |v| && IsWsp(v[i])
          invariant i <= |v|
          invariant val == RelaxedValue(v[..i]) && Owes(v[..i]) == seen
        {
          ReadOne(v, i);
          i := i + 1;
        }
        if seen { pending := true; }
      } else if IsWsp(c) {
        if seen { pending := true; }
        i := i + 1;
      } else {
        if pending {
          val := val + " ";
          pending := false;
        }
        val := val + [c];
        seen := true;
        i := i + 1;
      }
    }
    assert v[..|v|] == v;
  }

  /** relaxed_header */
  method RelaxHeader(hdr: string, colon: nat) returns (out: string)
    requires colon < |hdr|
    ensures out == Relaxed(hdr, colon)
  {
    out := "";
    for i := 0 to colon
      invariant out == Fold(hdr[..i])
    {
      assert hdr[..i + 1] == hdr[..i] + [hdr[i]];
      out := out + [Lower(hdr[i])];
    }
    var val := RelaxValue(hdr[colon + 1..]);
    out := out + ":" + val;
  }

  lemma NothingRelaxed()
    ensures RelaxedValue("") == "" && !Owes("")
  {
  }

  lemma ReadOne(v: string, k: nat)
    requires k < |v|
    ensures RelaxedValue(v[..k + 1])
         == RelaxedValue(v[..k]) + if IsFws(v[k]) then "" else (if Owes(v[..k]) then " " else "") + [v[k]]
    ensures Owes(v[..k + 1]) == (IsFws(v[k]) && RelaxedValue(v[..k]) != "")
  {
    assert v[..k + 1] == v[..k] + [v[k]];
    RelaxedStep(v[..k], v[k]);
  }

  /** The value has no whitespace at its end, so the trim that closes
      relaxed_header finds nothing, and no line break anywhere. */
  lemma {:induction false} ValueEndsClean(v: string)
    ensures RelaxedValue(v) != "" ==> !IsFws(RelaxedValue(v)[|RelaxedValue(v)| - 1])
    ensures forall k :: 0 <= k < |RelaxedValue(v)| ==> !IsBreak(RelaxedValue(v)[k])
  {
    if v != "" {
      ValueEndsClean(v[..|v| - 1]);
    }
  }

  // ---------------------------------------------------------------------
  // Scanning
  // ---------------------------------------------------------------------

  /** First line-break byte at or after `i`, or the end. */
  function LineStop(m: string, i: nat): (r: nat)
    requires i <= |m|
    ensures i <= r <= |m|
    decreases |m| - i
  {
    if i < |m| && !IsBreak(m[i]) then LineStop(m, i + 1) else i
  }

  /** Past an optional CR and an optional LF. */
  function AfterBreak(m: string, i: nat): (r: nat)
    requires i <= |m|
    ensures i <= r <= |m|
    ensures i < |m| && IsBreak(m[i]) ==> r > i
  {
    var j := if i < |m| && m[i] == '\r' then i + 1 else i;
    if j < |m| && m[j] == '\n' then j + 1 else j
  }

  /** End of the field whose value is being read at `i`: the first line break
      not followed by whitespace. */
  function FieldEnd(m: string, i: nat): (r: nat)
    requires i <= |m|
    ensures i <= r <= |m|
    decreases |m| - i
  {
    var j := AfterBreak(m, LineStop(m, i));
    if j < |m| && IsWsp(m[j]) then
      StopMoves(m, i);
      FieldEnd(m, j)
    else j
  }

  function ColonStop(m: string, i: nat): (r: nat)
    requires i <= |m|
    ensures i <= r <= |m|
    decreases |m| - i
  {
    if i < |m| && m[i] != ':' && !IsBreak(m[i]) then ColonStop(m, i + 1) else i
  }

  /** A header field: start, colon and end offsets. */
  datatype Field = Field(off: nat, colon: nat, end: nat)

  /** What scan_header finds at the start of a line: a field, or a line to skip. */
  datatype Scanned = Found(f: Field) | Skip(end: nat)

  function ScanHeader(m: string, ls: nat): (r: Scanned)
    requires ls < |m|
    ensures r.Found? ==> r.f.off == ls && ls <= r.f.colon < r.f.end <= |m|
    ensures r.Skip? ==> ls < r.end <= |m|
  {
    var c := ColonStop(m, ls);
    if c < |m| && m[c] == ':' then Found(Field(ls, c, FieldEnd(m, c + 1)))
    else
      StopMoves(m, ls);
      Skip(AfterBreak(m, LineStop(m, ls)))
  }

  lemma StopMoves(m: string, i: nat)
    requires i < |m|
    ensures AfterBreak(m, LineStop(m, i)) > i
  {
  }

  /** All fields from `pos` to the end of the block, in order. */
  function Fields(m: string, pos: nat): (r: seq<Field>)
    requires pos <= |m|
    ensures forall f :: f in r ==> pos <= f.off <= f.colon < f.end <= |m|
    decreases |m| - pos
  {
    if pos == |m| then []
    else
      match ScanHeader(m, pos)
      case Found(f) => [f] + Fields(m, f.end)
      case Skip(end) => Fields(m, end)
  }

  /** Start of the first empty line, or the end. */
  function FindBlank(m: string, i: nat): (r: nat)
    requires i <= |m|
    ensures i <= r <= |m|
    decreases |m| - i
  {
    if i == |m| then i
    else
      var s := LineStop(m, i);
      if s == i then i else FindBlank(m, AfterBreak(m, s))
  }

  /** The header block: everything before the first empty line. */
  function Block(m: string): string {
    m[..FindBlank(m, 0)]
  }

  // The scanners as loops.

  method ScanStop(m: string, from: nat) returns (i: nat)
    requires from <= |m|
    ensures i == LineStop(m, from)
  {
    i := from;
    while i < |m| && m[i] != '\r' && m[i] != '\n'
      invariant from <= i <= |m| && LineStop(m, from) == LineStop(m, i)
    {
      i := i + 1;
    }
  }

  /** header_end */
  method ScanFieldEnd(m: string, vstart: nat) returns (j: nat)
    requires vstart <= |m|
    ensures j == FieldEnd(m, vstart)
  {
    hide LineStop;
    var i := vstart;
    while true
      invariant vstart <= i <= |m| && FieldEnd(m, vstart) == FieldEnd(m, i)
      decreases |m| - i
    {
      var s := ScanStop(m, i);
      j := s;
      if j < |m| && m[j] == '\r' { j := j + 1; }
      if j < |m| && m[j] == '\n' { j := j + 1; }
      if j < |m| && (m[j] == ' ' || m[j] == '\t') {
        StopMoves(m, i);
        i := j;
        continue;
      }
      return;
    }
  }

  /** scan_header */
  method ScanField(m: string, ls: nat) returns (r: Scanned)
    requires ls < |m|
    ensures r == ScanHeader(m, ls)
  {
    var i := ls;
    while i < |m| && m[i] != ':' && m[i] != '\r' && m[i] != '\n'
      invariant ls <= i <= |m| && ColonStop(m, ls) == ColonStop(m, i)
    {
      i := i + 1;
    }
    if i >= |m| || m[i] != ':' {
      var s := ScanStop(m, ls);
      if s < |m| && m[s] == '\r' { s := s + 1; }
      if s < |m| && m[s] == '\n' { s := s + 1; }
      return Skip(s);
    }
    var end := ScanFieldEnd(m, i + 1);
    r := Found(Field(ls, i, end));
  }

  /** find_blank */
  method ScanBlank(m: string) returns (blank: nat)
    ensures blank == FindBlank(m, 0)
  {
    var i := 0;
    while i < |m|
      invariant i <= |m| && FindBlank(m, 0) == FindBlank(m, i)
    {
      var ls := i;
      i := ScanStop(m, i);
      if i == ls { return ls; }
      if i < |m| && m[i] == '\r' { i := i + 1; }
      if i < |m| && m[i] == '\n' { i := i + 1; }
    }
    blank := |m|;
  }

  // ---------------------------------------------------------------------
  // A block behind a prefix is scanned as the block alone
  // ---------------------------------------------------------------------

  lemma {:induction false} ShiftStops(pre: string, m: string, i: nat)
    requires i <= |m|
    ensures LineStop(pre + m, |pre| + i) == |pre| + LineStop(m, i)
    ensures ColonStop(pre + m, |pre| + i) == |pre| + ColonStop(m, i)
    decreases |m| - i
  {
    if i < |m| {
      assert (pre + m)[|pre| + i] == m[i];
      ShiftStops(pre, m, i + 1);
    }
  }

  lemma ShiftBreak(pre: string, m: string, i: nat)
    requires i <= |m|
    ensures AfterBreak(pre + m, |pre| + i) == |pre| + AfterBreak(m, i)
  {
    assert forall k :: 0 <= k < |m| ==> (pre + m)[|pre| + k] == m[k];
  }

  lemma {:induction false} ShiftFieldEnd(pre: string, m: string, i: nat)
    requires i <= |m|
    ensures FieldEnd(pre + m, |pre| + i) == |pre| + FieldEnd(m, i)
    decreases |m| - i
  {
    hide LineStop, AfterBreak;
    ShiftStops(pre, m, i);
    ShiftBreak(pre, m, LineStop(m, i));
    var j := AfterBreak(m, LineStop(m, i));
    assert j < |m| ==> (pre + m)[|pre| + j] == m[j];
    if j < |m| && IsWsp(m[j]) {
      StopMoves(m, i);
      ShiftFieldEnd(pre, m, j);
    }
  }

  function Shift(f: Field, d: nat): Field {
    Field(f.off + d, f.colon + d, f.end + d)
  }

  function ShiftAll(fs: seq<Field>, d: nat): (r: seq<Field>)
    ensures |r| == |fs| && forall i :: 0 <= i < |fs| ==> r[i] == Shift(fs[i], d)
  {
    seq(|fs|, i requires 0 <= i < |fs| => Shift(fs[i], d))
  }

  lemma ShiftScan(pre: string, m: string, i: nat)
    requires i < |m|
    ensures ScanHeader(pre + m, |pre| + i) == match ScanHeader(m, i)
                                              case Found(f) => Found(Shift(f, |pre|))
                                              case Skip(e) => Skip(|pre| + e)
  {
    hide LineStop, AfterBreak, ColonStop, FieldEnd;
    ShiftStops(pre, m, i);
    var c := ColonStop(m, i);
    assert c < |m| ==> (pre + m)[|pre| + c] == m[c];
    if c < |m| && m[c] == ':' {
      ShiftFieldEnd(pre, m, c + 1);
    } else {
      ShiftBreak(pre, m, LineStop(m, i));
    }
  }

  lemma {:induction false} ShiftFields(pre: string, m: string, i: nat)
    requires i <= |m|
    ensures Fields(pre + m, |pre| + i) == ShiftAll(Fields(m, i), |pre|)
    decreases |m| - i
  {
    hide ScanHeader;
    if i < |m| {
      ShiftScan(pre, m, i);
      match ScanHeader(m, i)
      case Found(f) =>
        ShiftFields(pre, m, f.end);
        assert ShiftAll([f] + Fields(m, f.end), |pre|) == [Shift(f, |pre|)] + ShiftAll(Fields(m, f.end), |pre|);
      case Skip(e) =>
        ShiftFields(pre, m, e);
    }
  }

  lemma {:induction false} ShiftBlank(pre: string, m: string, i: nat)
    requires i <= |m|
    ensures FindBlank(pre + m, |pre| + i) == |pre| + FindBlank(m, i)
    decreases |m| - i
  {
    hide LineStop, AfterBreak;
    if i < |m| {
      ShiftStops(pre, m, i);
      var s := LineStop(m, i);
      if s > i {
        ShiftBreak(pre, m, s);
        ShiftBlank(pre, m, AfterBreak(m, s));
      }
    }
  }

  /** Text without a line break up to `j` is skipped in one go. */
  lemma {:induction false} StopAt(m: string, i: nat, j: nat)
    requires i <= j <= |m| && forall k :: i <= k < j ==> !IsBreak(m[k])
    requires j < |m| ==> IsBreak(m[j])
    ensures LineStop(m, i) == j
    decreases j - i
  {
    if i < j {
      StopAt(m, i + 1, j);
    }
  }

  // ---------------------------------------------------------------------
  // What the relaxed form says of words
  // ---------------------------------------------------------------------

  predicate OnlyFws(x: string) {
    forall k :: 0 <= k < |x| ==> x[k] == ' ' || x[k] == '\t' || x[k] == '\r' || x[k] == '\n'
  }

  predicate NoFws(x: string) {
    forall k :: 0 <= k < |x| ==> x[k] != ' ' && x[k] != '\t' && x[k] != '\r' && x[k] != '\n'
  }

  /** Words without folding white space, gaps of nothing else, empty at most the last. */
  ghost predicate FoldedWords(ws: seq<Word>) {
    && (forall i :: 0 <= i < |ws| ==> ws[i].text != "" && NoFws(ws[i].text) && OnlyFws(ws[i].gap))
    && (forall i :: 0 <= i < |ws| - 1 ==> ws[i].gap != "")
  }

  lemma {:induction false} RelaxedGap(a: string, gap: string)
    requires OnlyFws(gap)
    ensures RelaxedValue(a + gap) == RelaxedValue(a)
    ensures Owes(a + gap) == ((gap != "" || Owes(a)) && RelaxedValue(a) != "")
    decreases gap
  {
    if gap == "" {
      assert a + gap == a;
    } else {
      var front, c := gap[..|gap| - 1], gap[|gap| - 1];
      RelaxedGap(a, front);
      RelaxedStep(a + front, c);
      assert a + front + [c] == a + gap;
    }
  }

  lemma {:induction false} RelaxedWord(a: string, x: string)
    requires NoFws(x) && x != ""
    ensures RelaxedValue(a + x) == RelaxedValue(a) + (if Owes(a) then " " else "") + x && !Owes(a + x)
    decreases x
  {
    var front, c := x[..|x| - 1], x[|x| - 1];
    RelaxedStep(a + front, c);
    assert a + front + [c] == a + x;
    if front == "" {
      assert a + front == a && [c] == x;
    } else {
      RelaxedWord(a, front);
      assert front + [c] == x;
    }
  }

  lemma RelaxedPiece(a: string, w: Word)
    requires w.text != "" && NoFws(w.text) && OnlyFws(w.gap)
    ensures RelaxedValue(a + w.text + w.gap) == RelaxedValue(a) + (if Owes(a) then " " else "") + w.text
    ensures Owes(a + w.text + w.gap) == (w.gap != "")
  {
    hide RelaxedValue, Owes;
    RelaxedWord(a, w.text);
    RelaxedGap(a + w.text, w.gap);
  }

  /** The relaxed value is the words with one space between them, however they are
      spaced and folded. */
  lemma {:induction false} RelaxedOfWords(gap: string, ws: seq<Word>)
    requires OnlyFws(gap) && FoldedWords(ws)
    ensures RelaxedValue(gap + WordsText(ws)) == WordsJoined(ws)
    ensures Owes(gap + WordsText(ws)) == (ws != [] && ws[|ws| - 1].gap != "")
    decreases |ws|
  {
    hide RelaxedValue, Owes, WordsText, WordsJoined, NoFws, OnlyFws;
    NothingRelaxed();
    WordsUnfold(ws);
    if ws == [] {
      NoMore(gap);
      RelaxedGap("", gap);
    } else {
      var front, w := ws[..|ws| - 1], ws[|ws| - 1];
      RelaxedOfWords(gap, front);
      RelaxedPiece(gap + WordsText(front), w);
      Assoc(gap, WordsText(front) + w.text, w.gap);
      Assoc(gap, WordsText(front), w.text);
      NoMore(w.text);
    }
  }

  // ---------------------------------------------------------------------
  // Printed headers are read back
  // ---------------------------------------------------------------------

  predicate FieldName(n: string) {
    forall k :: 0 <= k < |n| ==> n[k] != ':' && n[k] != '\r' && n[k] != '\n'
  }

  lemma {:induction false} LineStopIs(m: string, i: nat, k: nat)
    requires i <= k <= |m| && (forall j :: i <= j < k ==> !IsBreak(m[j])) && (k < |m| ==> IsBreak(m[k]))
    ensures LineStop(m, i) == k
    decreases k - i
  {
    if i < k { LineStopIs(m, i + 1, k); }
  }

  lemma {:induction false} ColonStopIs(m: string, i: nat, k: nat)
    requires i <= k < |m| && m[k] == ':' && forall j :: i <= j < k ==> m[j] != ':' && !IsBreak(m[j])
    ensures ColonStop(m, i) == k
    decreases k - i
  {
    if i < k { ColonStopIs(m, i + 1, k); }
  }

  lemma {:induction false} LineStopFacts(m: string, i: nat)
    requires i <= |m|
    ensures forall k :: i <= k < LineStop(m, i) ==> !IsBreak(m[k])
    ensures LineStop(m, i) < |m| ==> IsBreak(m[LineStop(m, i)])
    decreases |m| - i
  {
    if i < |m| && !IsBreak(m[i]) { LineStopFacts(m, i + 1); }
  }

  /** From `i` up to `e` every line break is a fold. */
  predicate Folds(m: string, i: nat, e: nat)
    requires i <= e <= |m|
  {
    && (forall k :: i <= k < e && m[k] == '\r' ==>
          k + 2 < e && m[k + 1] == '\n' && (m[k + 2] == ' ' || m[k + 2] == '\t'))
    && (forall k :: i <= k < e && m[k] == '\n' ==> k > i && m[k - 1] == '\r')
  }

  /** A folded value ends at the line break behind which no white space stands. */
  lemma {:induction false} FoldedEnd(m: string, i: nat, e: nat)
    requires i <= e && e + 2 <= |m| && m[e] == '\r' && m[e + 1] == '\n' && Folds(m, i, e)
    requires e + 2 < |m| ==> m[e + 2] != ' ' && m[e + 2] != '\t'
    ensures FieldEnd(m, i) == e + 2
    decreases e - i
  {
    var j := LineStop(m, i);
    LineStopFacts(m, i);
    hide LineStop;
    assert j <= e;
    if j < e {
      assert j > i ==> !IsBreak(m[j - 1]);
      assert m[j] == '\r';
      FoldedEnd(m, j + 2, e);
    }
  }

  lemma FoldsAt(m: string, i: nat, v: string)
    requires Folds(v, 0, |v|) && TextAt(m, i, v)
    ensures i + |v| <= |m| && Folds(m, i, i + |v|)
  {
    forall k | i <= k < i + |v| ensures m[k] == v[k - i] {
      assert m[i + (k - i)] == v[k - i];
    }
    forall k | i <= k < i + |v| && m[k] == '\r'
      ensures k + 2 < i + |v| && m[k + 1] == '\n' && (m[k + 2] == ' ' || m[k + 2] == '\t')
    {
      assert v[k - i] == '\r';
    }
    forall k | i <= k < i + |v| && m[k] == '\n' ensures k > i && m[k - 1] == '\r' {
      assert v[k - i] == '\n';
    }
  }

  /** A header field as it is written. */
  datatype Header = Header(name: string, value: string)

  ghost predicate ProperHeader(h: Header) {
    && h.name != "" && FieldName(h.name) && h.name[0] != ' ' && h.name[0] != '\t'
    && Folds(h.value, 0, |h.value|)
  }

  function HeaderText(h: Header): (r: string)
    ensures |r| == |h.name| + 1 + |h.value| + 2
  {
    h.name + (":" + (h.value + CRLF))
  }

  function HeadersText(hs: seq<Header>): string {
    if hs == [] then "" else HeaderText(hs[0]) + HeadersText(hs[1..])
  }

  /** Where the fields of written headers stand, the first at `pos`. */
  function FieldsAt(pos: nat, hs: seq<Header>): (r: seq<Field>)
    ensures |r| == |hs|
    decreases hs
  {
    if hs == [] then []
    else
      var c, e := pos + |hs[0].name|, pos + |HeaderText(hs[0])|;
      [Field(pos, c, e)] + FieldsAt(e, hs[1..])
  }

  /** The pieces of a header where it stands. */
  lemma HeaderStands(m: string, ls: nat, h: Header)
    requires ProperHeader(h) && TextAt(m, ls, HeaderText(h))
    ensures var c := ls + |h.name|;
            var e := c + 1 + |h.value|;
            && e + 2 <= |m| && m[c] == ':' && m[e] == '\r' && m[e + 1] == '\n' && Folds(m, c + 1, e)
            && (forall k :: ls <= k < c ==> m[k] != ':' && !IsBreak(m[k])) && m[ls] == h.name[0]
  {
    hide TextAt, Folds;
    var c := ls + |h.name|;
    var e := c + 1 + |h.value|;
    TextAtJoin(m, ls, h.name, ":" + (h.value + CRLF));
    TextAtJoin(m, c, ":", h.value + CRLF);
    TextAtJoin(m, c + 1, h.value, CRLF);
    TextAtHead(m, c, ":");
    TextAtHead(m, ls, h.name);
    TextAtSlice(m, e, CRLF);
    TextAtSlice(m, ls, h.name);
    FoldsAt(m, c + 1, h.value);
    assert m[e] == m[e..e + 2][0] && m[e + 1] == m[e..e + 2][1];
    forall k | ls <= k < c ensures m[k] != ':' && !IsBreak(m[k]) {
      assert m[k] == m[ls..c][k - ls] == h.name[k - ls];
    }
  }

  /** A written header, folded or not, is read as one field: its name up to the
      colon, its value up to the line break that ends it. */
  lemma HeaderIsFound(m: string, ls: nat, h: Header)
    requires ProperHeader(h) && TextAt(m, ls, HeaderText(h))
    requires var e := ls + |HeaderText(h)|; e < |m| ==> m[e] != ' ' && m[e] != '\t'
    ensures ls < |m| && ScanHeader(m, ls) == Found(Field(ls, ls + |h.name|, ls + |HeaderText(h)|))
  {
    hide TextAt, Folds, HeaderText, ProperHeader, ColonStop, FieldEnd;
    HeaderStands(m, ls, h);
    var c := ls + |h.name|;
    ColonStopIs(m, ls, c);
    FoldedEnd(m, c + 1, c + 1 + |h.value|);
  }

  lemma HeadersStart(m: string, pos: nat, hs: seq<Header>)
    requires (forall h :: h in hs ==> ProperHeader(h)) && TextAt(m, pos, HeadersText(hs)) && hs != []
    ensures pos < |m| && m[pos] != ' ' && m[pos] != '\t'
    ensures TextAt(m, pos, HeaderText(hs[0])) && TextAt(m, pos + |HeaderText(hs[0])|, HeadersText(hs[1..]))
    ensures |HeadersText(hs)| == |HeaderText(hs[0])| + |HeadersText(hs[1..])| && ProperHeader(hs[0])
  {
    hide TextAt, HeaderText, ProperHeader, HeadersText;
    assert hs[0] in hs;
    HeadersSplit(hs);
    TextAtJoin(m, pos, HeaderText(hs[0]), HeadersText(hs[1..]));
    HeaderStarts(m, pos, hs[0]);
  }

  lemma HeadersSplit(hs: seq<Header>)
    ensures hs == [] ==> HeadersText(hs) == ""
    ensures hs != [] ==> HeadersText(hs) == HeaderText(hs[0]) + HeadersText(hs[1..])
  {
    hide HeaderText;
  }

  lemma HeaderStarts(m: string, ls: nat, h: Header)
    requires ProperHeader(h) && TextAt(m, ls, HeaderText(h))
    ensures ls < |m| && m[ls] != ' ' && m[ls] != '\t'
  {
    TextAtHead(m, ls, HeaderText(h));
  }

  /** Written headers are read as exactly their fields, in order. */
  lemma {:induction false} HeadersAreRead(m: string, pos: nat, hs: seq<Header>)
    requires (forall h :: h in hs ==> ProperHeader(h)) && TextAt(m, pos, HeadersText(hs))
    requires pos + |HeadersText(hs)| == |m|
    ensures Fields(m, pos) == FieldsAt(pos, hs)
    decreases |hs|
  {
    hide TextAt, ScanHeader, HeaderText, ProperHeader, HeadersText, Fields;
    HeadersSplit(hs);
    if hs == [] {
      NoFields(m);
    } else {
      assert forall x :: x in hs[1..] ==> x in hs;
      HeadersStart(m, pos, hs);
      var e := pos + |HeaderText(hs[0])|;
      HeadersSplit(hs[1..]);
      if hs[1..] != [] { HeadersStart(m, e, hs[1..]); }
      HeaderIsFound(m, pos, hs[0]);
      HeadersAreRead(m, e, hs[1..]);
      FirstField(m, pos);
    }
  }

  lemma NoFields(m: string)
    ensures Fields(m, |m|) == []
  {
  }

  lemma FirstField(m: string, pos: nat)
    requires pos < |m| && ScanHeader(m, pos).Found?
    ensures Fields(m, pos) == [ScanHeader(m, pos).f] + Fields(m, ScanHeader(m, pos).f.end)
  {
    hide ScanHeader;
  }

  /** The lines of a folded header hold no empty one. */
  lemma {:induction false} NoBlankInside(m: string, i: nat, e: nat)
    requires i < e && e + 2 <= |m| && m[e] == '\r' && m[e + 1] == '\n' && Folds(m, i, e) && !IsBreak(m[i])
    ensures FindBlank(m, i) == FindBlank(m, e + 2)
    decreases e - i
  {
    var j := LineStop(m, i);
    LineStopFacts(m, i);
    hide LineStop;
    assert j <= e && j > i;
    if j < e {
      assert !IsBreak(m[j - 1]);
      assert m[j] == '\r';
      NoBlankInside(m, j + 2, e);
    }
  }

  lemma HeaderHasNoBlank(m: string, ls: nat, h: Header)
    requires ProperHeader(h) && TextAt(m, ls, HeaderText(h))
    ensures ls + |HeaderText(h)| <= |m| && FindBlank(m, ls) == FindBlank(m, ls + |HeaderText(h)|)
  {
    var c := ls + |h.name|;
    var e := c + 1 + |h.value|;
    assert h.name != "";
    hide TextAt, HeaderText, ProperHeader, FindBlank;
    HeaderStands(m, ls, h);
    FoldsBehindName(m, ls, c, e);
    NoBlankInside(m, ls, e);
  }

  lemma FoldsBehindName(m: string, ls: nat, c: nat, e: nat)
    requires ls <= c < e <= |m| && Folds(m, c + 1, e) && m[c] == ':' && forall k :: ls <= k < c ==> !IsBreak(m[k])
    ensures Folds(m, ls, e)
  {
    forall k | ls <= k < e && m[k] == '\n' ensures k > ls && m[k - 1] == '\r' {
      assert k > c + 1;
    }
  }

  /** The empty line behind written headers ends the header block. */
  lemma {:induction false} BlankIsFound(m: string, pos: nat, hs: seq<Header>)
    requires (forall h :: h in hs ==> ProperHeader(h)) && TextAt(m, pos, HeadersText(hs))
    requires TextAt(m, pos + |HeadersText(hs)|, CRLF)
    ensures pos <= |m| && FindBlank(m, pos) == pos + |HeadersText(hs)|
    decreases |hs|
  {
    if hs == [] {
      TextAtHead(m, pos, CRLF);
      LineStopIs(m, pos, pos);
    } else {
      assert forall x :: x in hs[1..] ==> x in hs;
      hide TextAt, HeaderText, ProperHeader, FindBlank;
      HeadersStart(m, pos, hs);
      hide HeadersText;
      HeaderHasNoBlank(m, pos, hs[0]);
      BlankIsFound(m, pos + |HeaderText(hs[0])|, hs[1..]);
    }
  }

  /** The header block of a written message is its headers, and its fields are
      theirs. */
  lemma WrittenMessage(hs: seq<Header>, body: string)
    requires forall h :: h in hs ==> ProperHeader(h)
    ensures var b := HeadersText(hs);
            Block(b + (CRLF + body)) == b && Fields(b, 0) == FieldsAt(0, hs)
  {
    hide TextAt, FindBlank, Fields, HeadersText, ProperHeader;
    var b := HeadersText(hs);
    var m := b + (CRLF + body);
    TextAtSelf(m);
    TextAtJoin(m, 0, b, CRLF + body);
    TextAtJoin(m, |b|, CRLF, body);
    BlankIsFound(m, 0, hs);
    TextAtSelf(b);
    HeadersAreRead(b, 0, hs);
  }
}
