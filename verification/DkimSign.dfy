/** The bytes the signer hashes and the bytes the verifier rebuilds from the
    signed message. */
module DkimSign {
  import opened Common
  import opened DkimBody
  import opened DkimHeader
  import opened DkimTags
  import opened DkimSelect

  const SIGNABLE: seq<string> := [
    "from", "sender", "reply-to", "to", "cc", "date", "subject",
    "message-id", "mime-version", "content-type", "content-transfer-encoding"]

  const HEADER_NAME: string := "DKIM-Signature"

  /** The fields lie inside the block. */
  ghost predicate Inside(m: string, fs: seq<Field>) {
    forall f :: f in fs ==> f.off <= f.colon < f.end <= |m|
  }

  /** Lower-case field names. */
  function NamesOf(m: string, fs: seq<Field>): (r: seq<string>)
    requires Inside(m, fs)
    ensures |r| == |fs| && forall i :: 0 <= i < |fs| ==> r[i] == Fold(m[fs[i].off..fs[i].colon])
  {
    seq(|fs|, i requires 0 <= i < |fs| => assert fs[i] in fs; Fold(m[fs[i].off..fs[i].colon]))
  }

  /** Canonical forms of the fields. */
  function CanonsOf(m: string, fs: seq<Field>): (r: seq<string>)
    requires Inside(m, fs)
    ensures |r| == |fs|
    ensures forall i :: 0 <= i < |fs| ==> r[i] == Relaxed(m[fs[i].off..fs[i].end], fs[i].colon - fs[i].off)
  {
    seq(|fs|, i requires 0 <= i < |fs| =>
      assert fs[i] in fs; Relaxed(m[fs[i].off..fs[i].end], fs[i].colon - fs[i].off))
  }

  ghost predicate Indices(idx: seq<nat>, n: nat) {
    forall i :: 0 <= i < |idx| ==> idx[i] < n
  }

  /** Positions of the signable names, in order. */
  function Signed(ns: seq<string>): (idx: seq<nat>)
    ensures Increasing(idx) && Indices(idx, |ns|)
    ensures forall i :: 0 <= i < |idx| ==> ns[idx[i]] in SIGNABLE
    ensures forall k :: 0 <= k < |ns| && ns[k] in SIGNABLE ==> k in idx
  {
    if ns == [] then []
    else
      var n := |ns| - 1;
      var front := Signed(ns[..n]);
      assert forall k :: 0 <= k < n ==> ns[..n][k] == ns[k];
      if ns[n] in SIGNABLE then
        assert forall k :: k in front ==> k in front + [n];
        front + [n]
      else front
  }

  function Choose(xs: seq<string>, idx: seq<nat>): (r: seq<string>)
    requires Indices(idx, |xs|)
    ensures |r| == |idx| && forall i :: 0 <= i < |idx| ==> r[i] == xs[idx[i]]
  {
    seq(|idx|, i requires 0 <= i < |idx| => xs[idx[i]])
  }

  function JoinColon(names: seq<string>): string {
    if names == [] then ""
    else if |names| == 1 then names[0]
    else names[0] + ":" + JoinColon(names[1..])
  }

  // ---------------------------------------------------------------------
  // Signer
  // ---------------------------------------------------------------------

  /** What the signer is configured with, and the body hash. */
  datatype Params = Params(d: string, s: string, t: string, bh: string)

  /** The tags in front of b=, in the order build_value prints them. */
  function LeadTags(p: Params, h: string): seq<Tag> {
    [Tag("v", "1"), Tag("a", "rsa-sha256"), Tag("c", "relaxed/relaxed"), Tag("d", p.d), Tag("s", p.s),
     Tag("t", p.t), Tag("bh", p.bh), Tag("h", h)]
  }

  /** The header text with the given signature, without a line end. */
  function SignatureText(p: Params, h: string, b: string): (r: string)
    ensures |r| > |HEADER_NAME|
  {
    HEADER_NAME + ": " + Render(LeadTags(p, h)) + "; b=" + b
  }

  /** The signable headers of a message: their names and canonical forms, in message order. */
  function SignedNames(msg: string): seq<string> {
    var ns := NamesOf(Block(msg), Fields(Block(msg), 0));
    Choose(ns, Signed(ns))
  }

  function SignedCanons(msg: string): seq<string> {
    var fs := Fields(Block(msg), 0);
    Choose(CanonsOf(Block(msg), fs), Signed(NamesOf(Block(msg), fs)))
  }

  /** The bytes dkim_sign_core hashes: each canonical header with its line end,
      then the canonical signature header with an empty b=. */
  function SignerInput(msg: string, p: Params): string {
    Terminated(SignedCanons(msg)) + Relaxed(SignatureText(p, JoinColon(SignedNames(msg)), ""), |HEADER_NAME|)
  }

  /** The header line put in front of the message. */
  function SignatureLine(msg: string, p: Params, b: string): string {
    SignatureText(p, JoinColon(SignedNames(msg)), b) + CRLF
  }

  // ---------------------------------------------------------------------
  // Verifier
  // ---------------------------------------------------------------------

  function SplitColon(h: string): (r: seq<string>)
    ensures r != []
  {
    if ':' !in h then [h]
    else
      var k := ColonAt(h);
      [h[..k]] + SplitColon(h[k + 1..])
  }

  function ColonAt(h: string): (k: nat)
    requires ':' in h
    ensures k < |h| && h[k] == ':' && ':' !in h[..k]
  {
    if h[0] == ':' then 0 else 1 + ColonAt(h[1..])
  }

  /** Drop the line end behind the value. */
  function StripBreaks(v: string): string {
    if v != "" && IsBreak(v[|v| - 1]) then StripBreaks(v[..|v| - 1]) else v
  }

  function RemoveFws(b: string): string {
    if b == "" then "" else (if IsFws(b[0]) then "" else [b[0]]) + RemoveFws(b[1..])
  }

  /** parse_dkim: the first header must be the signature with all six tags; the
      decoder of the b= value is a parameter.  Gives the h= names and the end of
      the header. */
  function ParseSignature(full: string, decodes: string -> bool): (r: Option<(seq<string>, nat)>)
    ensures r.Some? ==> |HEADER_NAME| < r.value.1 <= |full|
  {
    if full == "" then None
    else
      match ScanHeader(full, 0)
      case Skip(_) => None
      case Found(f) =>
        if Fold(full[..f.colon]) != Fold(HEADER_NAME) then None
        else
          var v := StripBreaks(full[f.colon + 1..f.end]);
          var h, b := TagGet(v, "h=", 0), TagGet(v, "b=", 0);
          if TagGet(v, "d=", 0).None? || TagGet(v, "s=", 0).None? || TagGet(v, "bh=", 0).None?
             || TagGet(v, "t=", 0).None? || h.None? || b.None? || !decodes(RemoveFws(b.value)) then None
          else Some((SplitColon(h.value), f.end))
  }

  /** canon_raw_dkim_hdr on the raw header text. */
  function CanonRaw(raw: string): string
    requires |raw| > |HEADER_NAME|
  {
    var e := EmptyB(raw, SkipFws(raw, |HEADER_NAME| + 1));
    Relaxed(e, |HEADER_NAME|)
  }

  /** The bytes dkim_verify_core hashes, or None when the signature does not parse. */
  function VerifierInput(full: string, decodes: string -> bool): Option<string> {
    var parsed := ParseSignature(full, decodes);
    if parsed.None? then None
    else
      var (hn, end) := parsed.value;
      var m := Block(full);
      var fs := Fields(m, 0);
      var bound := Bind(NamesOf(m, fs), {}, hn, 0);
      Some(Terminated(Choose(CanonsOf(m, fs), bound)) + CanonRaw(full[..end]))
  }

  // ---------------------------------------------------------------------
  // Reading back what was written
  // ---------------------------------------------------------------------

  lemma {:induction false} SplitJoin(names: seq<string>)
    requires names != [] && forall n :: n in names ==> ':' !in n
    ensures SplitColon(JoinColon(names)) == names
    decreases names
  {
    var n := names[0];
    assert n in names;
    if |names| > 1 {
      var rest := JoinColon(names[1..]);
      var h := n + ":" + rest;
      assert h[|n|] == ':';
      ColonAfter(n, rest);
      assert h[..|n|] == n && h[|n| + 1..] == rest;
      SplitJoin(names[1..]);
      assert names == [n] + names[1..];
    }
  }

  lemma {:induction false} ColonAfter(n: string, rest: string)
    requires ':' !in n
    ensures var h := n + ":" + rest; ':' in h && ColonAt(h) == |n|
  {
    var h := n + ":" + rest;
    assert h[|n|] == ':';
    if n != "" {
      assert h[0] == n[0];
      ColonAfter(n[1..], rest);
      assert h[1..] == n[1..] + ":" + rest;
    }
  }

  /** The signable names have no byte that means something in a tag list. */
  lemma SignableIsClean(n: string)
    requires n in SIGNABLE
    ensures CleanText(n)
  {
    ShortNamesClean();
    LongNamesClean();
    hide CleanText;
  }

  lemma ShortNamesClean()
    ensures CleanText("from") && CleanText("sender") && CleanText("reply-to") && CleanText("to") && CleanText("cc")
    ensures CleanText("date") && CleanText("subject")
  {
  }

  lemma LongNamesClean()
    ensures CleanText("message-id") && CleanText("mime-version")
    ensures CleanText("content-type") && CleanText("content-transfer-encoding")
  {
  }

  lemma SignableHasNoColon(n: string)
    requires n in SIGNABLE
    ensures ':' !in n && |n| != |HEADER_NAME|
  {
  }

  lemma {:induction false} JoinIsClean(names: seq<string>)
    requires forall n :: n in names ==> CleanText(n)
    ensures CleanText(JoinColon(names))
    decreases names
  {
    if names != [] {
      assert names[0] in names;
      JoinIsClean(names[1..]);
    }
  }

  lemma {:induction false} RemoveFwsClean(b: string)
    requires CleanText(b)
    ensures RemoveFws(b) == b
  {
    if b != "" {
      RemoveFwsClean(b[1..]);
      assert b == [b[0]] + b[1..];
    }
  }

  // ---------------------------------------------------------------------
  // The signature line in front of the message
  // ---------------------------------------------------------------------

  ghost predicate NoBreaks(s: string) {
    forall k :: 0 <= k < |s| ==> !IsBreak(s[k])
  }

  lemma {:induction false} RenderHasNoBreaks(ts: seq<Tag>)
    requires forall t :: t in ts ==> CleanTag(t)
    ensures NoBreaks(Render(ts))
    decreases ts
  {
    if ts != [] {
      assert ts[0] in ts;
      RenderHasNoBreaks(ts[1..]);
    }
  }

  lemma {:induction false} RenderAppend(ts: seq<Tag>, t: Tag)
    requires ts != []
    ensures Render(ts + [t]) == Render(ts) + "; " + TagText(t)
    decreases ts
  {
    assert (ts + [t])[1..] == ts[1..] + [t];
    if |ts| > 1 {
      RenderAppend(ts[1..], t);
    } else {
      assert ts[1..] == [] && ts[1..] + [t] == [t];
    }
  }

  lemma {:induction false} ValueOfAt(ts: seq<Tag>, k: nat)
    requires k < |ts| && forall j :: 0 <= j < k ==> ts[j].name != ts[k].name
    ensures ValueOf(ts, ts[k].name) == Some(ts[k].value)
  {
    if k > 0 {
      ValueOfAt(ts[1..], k - 1);
    }
  }

  ghost predicate CleanParams(p: Params) {
    CleanText(p.d) && CleanText(p.s) && CleanText(p.t) && CleanText(p.bh)
  }

  lemma LeadTagsClean(p: Params, h: string)
    requires CleanParams(p) && CleanText(h)
    ensures forall t :: t in LeadTags(p, h) ==> CleanTag(t) && t.name != "b"
  {
    hide CleanText;
    LiteralTagsClean();
    var ts := LeadTags(p, h);
    forall i | 0 <= i < |ts| ensures CleanTag(ts[i]) && ts[i].name != "b" {
      assert ts[i].name in ["v", "a", "c", "d", "s", "t", "bh", "h"];
    }
  }

  lemma LiteralTagsClean()
    ensures forall n :: n in ["v", "a", "c", "d", "s", "t", "bh", "h"] ==>
              n != "" && n != "b" && '=' !in n && CleanText(n)
    ensures CleanText("1") && CleanText("rsa-sha256") && CleanText("relaxed/relaxed")
  {
    TagNamesClean();
    hide CleanText;
    LiteralValuesClean();
  }

  lemma TagNamesClean()
    ensures CleanText("v") && CleanText("a") && CleanText("c") && CleanText("d")
    ensures CleanText("s") && CleanText("t") && CleanText("bh") && CleanText("h")
  {
  }

  lemma LiteralValuesClean()
    ensures CleanText("1") && CleanText("rsa-sha256") && CleanText("relaxed/relaxed")
  {
  }

  lemma {:induction false} ColonStopAt(m: string, i: nat, j: nat)
    requires i <= j < |m| && m[j] == ':' && forall k :: i <= k < j ==> m[k] != ':' && !IsBreak(m[k])
    ensures ColonStop(m, i) == j
    decreases j - i
  {
    if i < j {
      ColonStopAt(m, i + 1, j);
    }
  }

  /** A line `text` CRLF whose first colon is at offset 14. */
  ghost predicate HeaderLine(line: string) {
    && |line| >= |HEADER_NAME| + 3
    && line[|line| - 2] == '\r' && line[|line| - 1] == '\n'
    && NoBreaks(line[..|line| - 2])
    && line[..|HEADER_NAME|] == HEADER_NAME && line[|HEADER_NAME|] == ':'
  }

  /** In front of text that does not start with whitespace the line is one header field. */
  lemma LineIsFirstField(line: string, m: string)
    requires HeaderLine(line) && (m == "" || !IsWsp(m[0]))
    ensures ScanHeader(line + m, 0) == Found(Field(0, |HEADER_NAME|, |line|))
    ensures FindBlank(line + m, 0) == |line| + FindBlank(m, 0)
  {
    hide LineStop, ColonStop, FieldEnd, FindBlank;
    var full, n, e := line + m, |HEADER_NAME|, |line| - 2;
    assert forall k :: 0 <= k < e ==> full[k] == line[..e][k];
    assert forall k :: 0 <= k < n ==> full[k] == line[..n][k];
    assert full[e] == '\r' && full[e + 1] == '\n';
    ColonStopAt(full, 0, n);
    StopAt(full, n + 1, e);
    StopAt(full, 0, e);
    assert AfterBreak(full, e) == |line|;
    assert m != "" ==> full[|line|] == m[0];
    FieldEndsHere(full, n + 1, e);
    ShiftBlank(line, m, 0);
    BlankAfterLine(full, e);
  }

  lemma FieldEndsHere(m: string, i: nat, e: nat)
    requires i <= e <= |m| && LineStop(m, i) == e
    requires AfterBreak(m, e) < |m| ==> !IsWsp(m[AfterBreak(m, e)])
    ensures FieldEnd(m, i) == AfterBreak(m, e)
  {
  }

  lemma BlankAfterLine(m: string, e: nat)
    requires 0 < e <= |m| && LineStop(m, 0) == e
    ensures FindBlank(m, 0) == FindBlank(m, AfterBreak(m, e))
  {
  }

  /** The header block and its fields, with the line in front. */
  lemma FieldsBehindLine(line: string, msg: string)
    requires HeaderLine(line) && (msg == "" || !IsWsp(msg[0]))
    ensures Block(line + msg) == line + Block(msg)
    ensures Fields(Block(line + msg), 0) == WithLine(line, Fields(Block(msg), 0))
  {
    hide LineStop, FieldEnd, ColonStop, FindBlank, ScanHeader, HeaderLine, Fields, ShiftAll;
    LineIsFirstField(line, msg);
    var m := Block(msg);
    assert (line + msg)[..|line| + |m|] == line + m;
    assert m == "" || m[0] == msg[0];
    hide Block;
    FieldsOfBehind(line, m);
  }

  lemma FieldsOfBehind(line: string, m: string)
    requires HeaderLine(line) && (m == "" || !IsWsp(m[0]))
    ensures Fields(line + m, 0) == WithLine(line, Fields(m, 0))
  {
    hide Fields, ScanHeader, HeaderLine, ShiftAll, FindBlank;
    LineIsFirstField(line, m);
    ShiftFields(line, m, 0);
    FirstField(line + m, Field(0, |HEADER_NAME|, |line|));
  }

  lemma FirstField(m: string, f: Field)
    requires m != "" && ScanHeader(m, 0) == Found(f)
    ensures Fields(m, 0) == [f] + Fields(m, f.end)
  {
    hide ScanHeader;
  }

  /** The signature field and the shifted fields of the block. */
  function WithLine(line: string, fs: seq<Field>): (r: seq<Field>)
    ensures |r| == |fs| + 1 && r[0] == Field(0, |HEADER_NAME|, |line|)
    ensures forall i :: 0 <= i < |fs| ==> r[i + 1] == Shift(fs[i], |line|)
  {
    [Field(0, |HEADER_NAME|, |line|)] + ShiftAll(fs, |line|)
  }

  lemma InsideBehind(line: string, m: string, fs: seq<Field>)
    requires HeaderLine(line) && Inside(m, fs)
    ensures Inside(line + m, WithLine(line, fs))
  {
    var all := WithLine(line, fs);
    forall f | f in all ensures f.off <= f.colon < f.end <= |line + m| {
      var i :| 0 <= i < |all| && all[i] == f;
      if i > 0 {
        assert all[i - 1 + 1] == Shift(fs[i - 1], |line|) && fs[i - 1] in fs;
      }
    }
  }

  lemma SliceBehind(line: string, m: string, i: nat, j: nat)
    requires i <= j <= |m|
    ensures (line + m)[i + |line|..j + |line|] == m[i..j]
  {
  }

  /** Behind the line the fields have the same names ... */
  lemma NamesBehind(line: string, m: string, fs: seq<Field>)
    requires HeaderLine(line) && Inside(m, fs) && Inside(line + m, WithLine(line, fs))
    ensures NamesOf(line + m, WithLine(line, fs)) == [Fold(HEADER_NAME)] + NamesOf(m, fs)
  {
    hide Fold, WithLine, HeaderLine;
    var all := WithLine(line, fs);
    var ns := NamesOf(line + m, all);
    assert (line + m)[0..|HEADER_NAME|] == HEADER_NAME by { LineStarts(line, m); }
    forall i | 0 <= i < |fs| ensures ns[i + 1] == NamesOf(m, fs)[i] {
      assert fs[i] in fs && all[i + 1] == Shift(fs[i], |line|);
      SliceBehind(line, m, fs[i].off, fs[i].colon);
    }
  }

  lemma LineStarts(line: string, m: string)
    requires HeaderLine(line)
    ensures (line + m)[0..|HEADER_NAME|] == HEADER_NAME
  {
    assert (line + m)[0..|HEADER_NAME|] == line[..|HEADER_NAME|];
  }

  /** ... and the same canonical forms. */
  lemma CanonsBehind(line: string, m: string, fs: seq<Field>)
    requires Inside(m, fs) && Inside(line + m, WithLine(line, fs))
    ensures CanonsOf(line + m, WithLine(line, fs))[1..] == CanonsOf(m, fs)
  {
    hide Relaxed, WithLine;
    var all := WithLine(line, fs);
    var cs := CanonsOf(line + m, all);
    forall i | 0 <= i < |fs| ensures cs[i + 1] == CanonsOf(m, fs)[i] {
      assert fs[i] in fs && all[i + 1] == Shift(fs[i], |line|);
      SliceBehind(line, m, fs[i].off, fs[i].end);
    }
  }

  // ---------------------------------------------------------------------
  // Parsing the signature line
  // ---------------------------------------------------------------------

  function AllTags(p: Params, h: string, b: string): seq<Tag> {
    LeadTags(p, h) + [Tag("b", b)]
  }

  lemma SignatureTextIsRender(p: Params, h: string, b: string)
    ensures SignatureText(p, h, b) == HEADER_NAME + ":" + (" " + Render(AllTags(p, h, b)))
  {
    hide Render;
    RenderAppend(LeadTags(p, h), Tag("b", b));
    var r := Render(LeadTags(p, h));
    assert "; b=" == "; " + "b=";
    assert HEADER_NAME + ": " + r + "; b=" + b == HEADER_NAME + ":" + (" " + (r + "; " + ("b" + "=" + b)));
  }

  lemma AllTagsClean(p: Params, h: string, b: string)
    requires CleanParams(p) && CleanText(h) && CleanText(b)
    ensures forall t :: t in AllTags(p, h, b) ==> CleanTag(t)
  {
    LeadTagsClean(p, h);
    assert CleanTag(Tag("b", b));
    assert forall t :: t in AllTags(p, h, b) ==> t in LeadTags(p, h) || t == Tag("b", b);
  }

  lemma LineIsHeaderLine(p: Params, h: string, b: string)
    requires CleanParams(p) && CleanText(h) && CleanText(b)
    ensures HeaderLine(SignatureText(p, h, b) + CRLF)
  {
    hide Render, CleanText, CleanTag, LeadTags;
    AllTagsClean(p, h, b);
    RenderHasNoBreaks(AllTags(p, h, b));
    SignatureTextIsRender(p, h, b);
    var text, r := SignatureText(p, h, b), Render(AllTags(p, h, b));
    var line := text + CRLF;
    assert line[..|line| - 2] == text;
    HeaderTextNoBreaks(r, text);
    assert line[..|HEADER_NAME|] == HEADER_NAME;
  }

  lemma HeaderTextNoBreaks(r: string, text: string)
    requires NoBreaks(r) && text == HEADER_NAME + ":" + (" " + r)
    ensures NoBreaks(text)
  {
    forall k | 0 <= k < |text| ensures !IsBreak(text[k]) {
      if k >= |HEADER_NAME| + 2 {
        assert text[k] == r[k - |HEADER_NAME| - 2];
      }
    }
  }

  lemma StripLineEnd(v: string)
    requires NoBreaks(v)
    ensures StripBreaks(v + CRLF) == v
  {
    var w, u := v + CRLF, v + "\r";
    assert w[|w| - 1] == '\n' && w[..|w| - 1] == u;
    assert u[|u| - 1] == '\r' && u[..|u| - 1] == v;
    assert StripBreaks(u) == StripBreaks(v) == v;
  }

  /** Every tag is read back. */
  lemma TagReadBack(p: Params, h: string, b: string, k: nat)
    requires CleanParams(p) && CleanText(h) && CleanText(b)
    requires k < |AllTags(p, h, b)|
    requires forall j :: 0 <= j < k ==> AllTags(p, h, b)[j].name != AllTags(p, h, b)[k].name
    ensures var ts := AllTags(p, h, b);
            TagGet(" " + Render(ts), ts[k].name + "=", 0) == Some(ts[k].value)
  {
    hide Render, LeadTags, TagGet;
    var ts := AllTags(p, h, b);
    var v, name := " " + Render(ts), ts[k].name;
    AllTagsClean(p, h, b);
    assert ts[k] in ts;
    assert TextAt(v, 1, Render(ts));
    TagGetRender(v, 1, ts, name);
    ValueOfAt(ts, k);
    SkipFirstByte(v, name + "=");
  }

  lemma SkipFirstByte(v: string, tag: string)
    requires v != "" && tag != "" && v[0] != tag[0]
    ensures TagGet(v, tag, 0) == TagGet(v, tag, 1)
  {
    AtTagText(v, 0, tag);
    assert v[0 + 0] != tag[0];
  }

  lemma AllTagsReadBack(p: Params, h: string, b: string)
    requires CleanParams(p) && CleanText(h) && CleanText(b)
    ensures var v := " " + Render(AllTags(p, h, b));
            && TagGet(v, "d=", 0) == Some(p.d) && TagGet(v, "s=", 0) == Some(p.s)
            && TagGet(v, "t=", 0) == Some(p.t) && TagGet(v, "bh=", 0) == Some(p.bh)
            && TagGet(v, "h=", 0) == Some(h) && TagGet(v, "b=", 0) == Some(b)
  {
    hide Render, TagGet, CleanText;
    var ts := AllTags(p, h, b);
    TagReadBack(p, h, b, 3);
    TagReadBack(p, h, b, 4);
    TagReadBack(p, h, b, 5);
    TagReadBack(p, h, b, 6);
    TagReadBack(p, h, b, 7);
    TagReadBack(p, h, b, 8);
    assert "d" + "=" == "d=" && "s" + "=" == "s=" && "t" + "=" == "t=";
    assert "bh" + "=" == "bh=" && "h" + "=" == "h=" && "b" + "=" == "b=";
  }

  /** parse_dkim on a signed message recovers the signed names and the extent of the line. */
  lemma ParseSignedMessage(p: Params, h: string, b: string, msg: string, decodes: string -> bool)
    requires CleanParams(p) && CleanText(h) && CleanText(b) && decodes(b)
    requires msg == "" || !IsWsp(msg[0])
    ensures var line := SignatureText(p, h, b) + CRLF;
            ParseSignature(line + msg, decodes) == Some((SplitColon(h), |line|))
  {
    hide Render, TagGet, CleanText, SplitColon, LeadTags, HeaderLine, ScanHeader, Fold, RemoveFws, StripBreaks;
    var line := SignatureText(p, h, b) + CRLF;
    LineIsHeaderLine(p, h, b);
    LineIsFirstField(line, msg);
    var v := " " + Render(AllTags(p, h, b));
    SignatureTextIsRender(p, h, b);
    LineValue(line, msg, v);
    AllTagsClean(p, h, b);
    RenderHasNoBreaks(AllTags(p, h, b));
    StripLineEnd(v);
    AllTagsReadBack(p, h, b);
    RemoveFwsClean(b);
  }

  lemma LineValue(line: string, msg: string, v: string)
    requires line == HEADER_NAME + ":" + v + CRLF
    ensures (line + msg)[..|HEADER_NAME|] == HEADER_NAME
    ensures (line + msg)[|HEADER_NAME| + 1..|line|] == v + CRLF
  {
  }

  /** Emptying b= and relaxing gives what the signer canonicalized. */
  lemma CanonRawOfLine(p: Params, h: string, b: string)
    requires CleanParams(p) && CleanText(h) && CleanText(b)
    ensures CanonRaw(SignatureText(p, h, b) + CRLF) == Relaxed(SignatureText(p, h, ""), |HEADER_NAME|)
  {
    hide Render, CleanText, EmptyB, Relaxed;
    var ts, line, n := LeadTags(p, h), SignatureText(p, h, b) + CRLF, |HEADER_NAME| + 2;
    LeadTagsClean(p, h);
    hide CleanTag, LeadTags, TextAt;
    LineLayout(Render(ts), b, line);
    RenderStarts(p, h);
    assert line[n] == Render(ts)[0];
    assert SkipFws(line, n - 1) == n;
    EmptyBRender(line, n, ts, b);
    assert line[..n + |Render(ts)| + 4] == SignatureText(p, h, "");
  }

  lemma LineLayout(r: string, b: string, line: string)
    requires line == HEADER_NAME + ": " + r + "; b=" + b + CRLF
    ensures var n := |HEADER_NAME| + 2;
            && TextAt(line, n, r) && TextAt(line, n + |r|, "; b=") && TextAt(line, n + |r| + 4, b)
            && TextAt(line, n + |r| + 4 + |b|, CRLF) && n + |r| + 4 + |b| + 2 == |line|
            && line[n - 1] == ' '
            && line[..n + |r| + 4] == HEADER_NAME + ": " + r + "; b=" + ""
  {
  }

  lemma RenderStarts(p: Params, h: string)
    ensures Render(LeadTags(p, h)) != "" && Render(LeadTags(p, h))[0] == 'v'
  {
  }

  // ---------------------------------------------------------------------
  // Signer and verifier hash the same bytes
  // ---------------------------------------------------------------------

  lemma SignedFacts(msg: string)
    ensures |SignedNames(msg)| == |SignedCanons(msg)|
    ensures forall n :: n in SignedNames(msg) ==> n in SIGNABLE
    ensures CleanText(JoinColon(SignedNames(msg)))
    ensures SignedNames(msg) != [] ==> SplitColon(JoinColon(SignedNames(msg))) == SignedNames(msg)
  {
    var names := SignedNames(msg);
    forall n | n in names ensures n in SIGNABLE && CleanText(n) && ':' !in n {
      var i :| 0 <= i < |names| && names[i] == n;
      SignableIsClean(n);
      SignableHasNoColon(n);
    }
    hide CleanText;
    JoinIsClean(names);
    if names != [] {
      SplitJoin(names);
    }
  }

  /** In the signed message the h= names are listed one place further down. */
  lemma ListedBehind(ns: seq<string>)
    ensures var idx := Signed(ns);
            Listed([Fold(HEADER_NAME)] + ns, ShiftIndices(idx), Choose(ns, idx))
  {
    hide Signed, Choose, Fold, ShiftIndices, SIGNABLE;
    var idx, hn, all := Signed(ns), Choose(ns, Signed(ns)), [Fold(HEADER_NAME)] + ns;
    var up := ShiftIndices(idx);
    forall j, i | 0 <= j < |all| && 0 <= i < |hn| && all[j] == hn[i] ensures j in up {
      SignableHasNoColon(hn[i]);
      ShiftedIndex(idx, j);
    }
  }

  lemma ShiftedIndex(idx: seq<nat>, j: nat)
    ensures j > 0 && j - 1 in idx ==> j in ShiftIndices(idx)
  {
    if j > 0 && j - 1 in idx {
      var l :| 0 <= l < |idx| && idx[l] == j - 1;
      assert ShiftIndices(idx)[l] == j;
    }
  }

  function ShiftIndices(idx: seq<nat>): (r: seq<nat>)
    ensures |r| == |idx| && forall i :: 0 <= i < |idx| ==> r[i] == idx[i] + 1
  {
    seq(|idx|, i requires 0 <= i < |idx| => idx[i] + 1)
  }

  /** The list the verifier terminates equals the signer's list exactly when
      equally named headers read the same both ways. */
  lemma VerifierListIff(ns: seq<string>, cs: seq<string>, all: seq<string>)
    requires |ns| == |cs| && |all| == |cs| + 1 && all[1..] == cs
    ensures var hn, bound := Choose(ns, Signed(ns)), Bind([Fold(HEADER_NAME)] + ns, {}, Choose(ns, Signed(ns)), 0);
            && |bound| == |hn| && Indices(bound, |all|)
            && (Choose(all, bound) == Choose(cs, Signed(ns)) <==> SameBothWays(hn, Choose(cs, Signed(ns))))
  {
    hide Fold, Listed, SameBothWays, Bind, Mirrors;
    var idx := Signed(ns);
    var hn, mine, up := Choose(ns, idx), Choose(cs, idx), ShiftIndices(idx);
    ListedBehind(ns);
    forall i | 0 <= i < |hn| ensures mine[i] == all[up[i]] {
      assert all[1..][idx[i]] == all[idx[i] + 1];
    }
    BoundFormsIff(all, [Fold(HEADER_NAME)] + ns, up, hn, mine);
  }

  /** Canonical headers have no line end inside, so a terminated list determines its lines. */
  lemma CanonHasNoCrlf(m: string, fs: seq<Field>, idx: seq<nat>)
    requires Inside(m, fs) && Indices(idx, |fs|)
    requires forall f :: f in fs ==> forall k :: f.off <= k < f.colon ==> !IsBreak(m[k])
    ensures forall c :: c in Choose(CanonsOf(m, fs), idx) ==> NoCrlf(c)
  {
    hide NoCrlf, CanonsOf, Choose;
    var cs := Choose(CanonsOf(m, fs), idx);
    forall c | c in cs ensures NoCrlf(c) {
      var i :| 0 <= i < |cs| && cs[i] == c;
      CanonAtNoCrlf(m, fs, idx[i]);
    }
  }

  lemma CanonAtNoCrlf(m: string, fs: seq<Field>, k: nat)
    requires Inside(m, fs) && k < |fs|
    requires forall j :: fs[k].off <= j < fs[k].colon ==> !IsBreak(m[j])
    ensures NoCrlf(CanonsOf(m, fs)[k])
  {
    hide NoCrlf;
    RelaxedNoBreaks(m[fs[k].off..fs[k].end], fs[k].colon - fs[k].off);
  }

  lemma RelaxedNoBreaks(hdr: string, colon: nat)
    requires colon < |hdr| && forall k :: 0 <= k < colon ==> !IsBreak(hdr[k])
    ensures NoCrlf(Relaxed(hdr, colon))
  {
    var r, name := Relaxed(hdr, colon), Fold(hdr[..colon]);
    ValueEndsClean(hdr[colon + 1..]);
    assert forall k :: 0 <= k < |name| ==> r[k] == name[k] == Lower(hdr[k]);
    assert forall k :: colon < k < |r| ==> r[k] == RelaxedValue(hdr[colon + 1..])[k - colon - 1];
  }

  lemma {:induction false} NamesHaveNoBreaks(m: string, pos: nat)
    requires pos <= |m|
    ensures forall f :: f in Fields(m, pos) ==> forall k :: f.off <= k < f.colon ==> !IsBreak(m[k])
    decreases |m| - pos
  {
    if pos < |m| {
      match ScanHeader(m, pos)
      case Found(f) =>
        ColonStopClean(m, pos);
        NamesHaveNoBreaks(m, f.end);
      case Skip(e) =>
        NamesHaveNoBreaks(m, e);
    }
  }

  lemma {:induction false} ColonStopClean(m: string, i: nat)
    requires i <= |m|
    ensures forall k :: i <= k < ColonStop(m, i) ==> !IsBreak(m[k])
    decreases |m| - i
  {
    if i < |m| && m[i] != ':' && !IsBreak(m[i]) {
      ColonStopClean(m, i + 1);
    }
  }

  /** The bytes the verifier rebuilds for a signed message: the canonical forms
      bound to the entries, then the signer's own signature header. */
  lemma VerifierInputOfSigned(msg: string, p: Params, b: string, decodes: string -> bool) returns (all: seq<string>)
    requires CleanParams(p) && CleanText(b) && decodes(b)
    requires msg == "" || !IsWsp(msg[0])
    requires SignedNames(msg) != []
    ensures var ns := NamesOf(Block(msg), Fields(Block(msg), 0));
            var bound := Bind([Fold(HEADER_NAME)] + ns, {}, SignedNames(msg), 0);
            && |all| == |ns| + 1 && all[1..] == CanonsOf(Block(msg), Fields(Block(msg), 0))
            && Indices(bound, |all|)
            && (forall c :: c in Choose(all, bound) ==> NoCrlf(c))
            && VerifierInput(SignatureLine(msg, p, b) + msg, decodes)
               == Some(Terminated(Choose(all, bound))
                       + Relaxed(SignatureText(p, JoinColon(SignedNames(msg)), ""), |HEADER_NAME|))
  {
    var h := JoinColon(SignedNames(msg));
    var line := SignatureLine(msg, p, b);
    SignedFacts(msg);
    hide CleanText, Relaxed, CanonRaw, Fold, ParseSignature, Terminated, Fields, JoinColon, SignatureText;
    hide Bind, WithLine, HeaderLine, NoCrlf;
    LineIsHeaderLine(p, h, b);
    ParseSignedMessage(p, h, b, msg, decodes);
    CanonRawOfLine(p, h, b);
    FieldsBehindLine(line, msg);
    InsideBehind(line, Block(msg), Fields(Block(msg), 0));
    NamesBehind(line, Block(msg), Fields(Block(msg), 0));
    CanonsBehind(line, Block(msg), Fields(Block(msg), 0));
    assert (line + msg)[..|line|] == line;
    var m := Block(line + msg);
    all := CanonsOf(m, Fields(m, 0));
    NamesHaveNoBreaks(m, 0);
    CanonHasNoCrlf(m, Fields(m, 0), Bind(NamesOf(m, Fields(m, 0)), {}, SignedNames(msg), 0));
  }

  lemma SignedCanonsClean(msg: string)
    ensures forall c :: c in SignedCanons(msg) ==> NoCrlf(c)
  {
    var m := Block(msg);
    NamesHaveNoBreaks(m, 0);
    CanonHasNoCrlf(m, Fields(m, 0), Signed(NamesOf(m, Fields(m, 0))));
  }

  lemma TerminatedIsInjective(a: seq<string>, b: seq<string>)
    requires (forall c :: c in a ==> NoCrlf(c)) && (forall c :: c in b ==> NoCrlf(c))
    ensures Terminated(a) == Terminated(b) <==> a == b
  {
    LinesOfTerminated(a);
    LinesOfTerminated(b);
  }

  /** For every signable message, the verifier hashes the bytes the signer hashed
      exactly when equally named signed headers have the same canonical forms
      read top-down and bottom-up. */
  lemma InputsAgreeIff(msg: string, p: Params, b: string, decodes: string -> bool)
    requires CleanParams(p) && CleanText(b) && decodes(b)
    requires msg == "" || !IsWsp(msg[0])
    requires SignedNames(msg) != []
    ensures |SignedNames(msg)| == |SignedCanons(msg)|
    ensures VerifierInput(SignatureLine(msg, p, b) + msg, decodes) == Some(SignerInput(msg, p))
            <==> SameBothWays(SignedNames(msg), SignedCanons(msg))
  {
    hide Fold, Relaxed, VerifierInput, Fields, Block, SignatureLine, SignatureText, JoinColon, Bind, Terminated,
         SameBothWays, NoCrlf, CleanText, CleanParams;
    assert Inside(Block(msg), Fields(Block(msg), 0));
    hide Inside;
    var all := VerifierInputOfSigned(msg, p, b, decodes);
    var ns, cs := NamesOf(Block(msg), Fields(Block(msg), 0)), CanonsOf(Block(msg), Fields(Block(msg), 0));
    VerifierListIff(ns, cs, all);
    SignedCanonsClean(msg);
    var theirs := Choose(all, Bind([Fold(HEADER_NAME)] + ns, {}, SignedNames(msg), 0));
    TerminatedIsInjective(theirs, SignedCanons(msg));
    SameSuffix(Terminated(theirs), Terminated(SignedCanons(msg)),
               Relaxed(SignatureText(p, JoinColon(SignedNames(msg)), ""), |HEADER_NAME|));
  }

  lemma SameSuffix(a: string, b: string, c: string)
    ensures a + c == b + c <==> a == b
  {
    if a + c == b + c {
      assert |a| == |b|;
      assert (a + c)[..|a|] == a && (b + c)[..|b|] == b;
    }
  }

  lemma DistinctReadsSame(names: seq<string>, canons: seq<string>)
    requires |names| == |canons| && Distinct(names)
    ensures SameBothWays(names, canons)
  {
    forall i: nat, k: nat | Mirrors(names, i, k) ensures canons[i] == canons[k] {
      DistinctMirrors(names, i, k);
    }
  }

  /** In particular for every message whose signable names are pairwise distinct. */
  lemma DistinctNamesVerify(msg: string, p: Params, b: string, decodes: string -> bool)
    requires CleanParams(p) && CleanText(b) && decodes(b)
    requires msg == "" || !IsWsp(msg[0])
    requires SignedNames(msg) != [] && Distinct(SignedNames(msg))
    ensures VerifierInput(SignatureLine(msg, p, b) + msg, decodes) == Some(SignerInput(msg, p))
  {
    InputsAgreeIff(msg, p, b, decodes);
    DistinctReadsSame(SignedNames(msg), SignedCanons(msg));
  }

  // ---------------------------------------------------------------------
  // A repeated header
  // ---------------------------------------------------------------------

  /** A message with two different To: headers. */
  const TWO_TO: string := "To:a\r\nTo:b\r\n\r\n"
  const TWO_TO_BLOCK: string := "To:a\r\nTo:b\r\n"

  lemma TwoToScan()
    ensures Block(TWO_TO) == TWO_TO_BLOCK
    ensures Fields(TWO_TO_BLOCK, 0) == [Field(0, 2, 6), Field(6, 8, 12)]
  {
    TwoToBlock();
    TwoToFields();
  }

  lemma TwoToBlock()
    ensures Block(TWO_TO) == TWO_TO_BLOCK
  {
    var m := TWO_TO;
    assert LineStop(m, 0) == 4 && LineStop(m, 6) == 10 && LineStop(m, 12) == 12;
    hide LineStop;
    assert FindBlank(m, 12) == 12 && FindBlank(m, 6) == 12;
    assert m[..12] == TWO_TO_BLOCK;
  }

  lemma TwoToFields()
    ensures Fields(TWO_TO_BLOCK, 0) == [Field(0, 2, 6), Field(6, 8, 12)]
  {
    var k := TWO_TO_BLOCK;
    assert LineStop(k, 3) == 4 && LineStop(k, 9) == 10;
    assert ColonStop(k, 0) == 2 && ColonStop(k, 6) == 8;
    hide LineStop, ColonStop;
    assert FieldEnd(k, 3) == 6 && FieldEnd(k, 9) == 12;
    hide FieldEnd;
    assert Fields(k, 6) == [Field(6, 8, 12)];
  }

  lemma OneLetterValue(c: char)
    requires !IsFws(c)
    ensures RelaxedValue([c, '\r', '\n']) == [c]
  {
    assert [c][..0] == "" && [c, '\r'][..1] == [c] && [c, '\r', '\n'][..2] == [c, '\r'];
    assert RelaxedValue([c]) == [c];
    assert RelaxedValue([c, '\r']) == [c];
  }

  lemma TwoToNames()
    ensures NamesOf(TWO_TO_BLOCK, [Field(0, 2, 6), Field(6, 8, 12)]) == ["to", "to"]
  {
    var m := TWO_TO_BLOCK;
    assert m[0..2] == "To" && m[6..8] == "To" && Fold("To") == "to";
    hide Fold;
  }

  lemma TwoToIndices()
    ensures Signed(["to", "to"]) == [0, 1]
  {
    var ns := ["to", "to"];
    assert "to" == SIGNABLE[3];
    hide SIGNABLE;
    assert ns[..1] == ["to"] && ns[..1][..0] == [];
    assert Signed(ns[..1][..0]) == [];
    assert Signed(ns[..1]) == [0];
  }

  lemma TwoToCanons()
    ensures var cs := CanonsOf(TWO_TO_BLOCK, [Field(0, 2, 6), Field(6, 8, 12)]);
            |cs| == 2 && cs[0][|cs[0]| - 1..] == "a" && cs[1][|cs[1]| - 1..] == "b"
  {
    var m, fs := TWO_TO_BLOCK, [Field(0, 2, 6), Field(6, 8, 12)];
    OneLetterValue('a');
    OneLetterValue('b');
    hide RelaxedValue, Fold;
    assert m[0..6][3..] == ['a', '\r', '\n'] && m[6..12][3..] == ['b', '\r', '\n'];
    var cs := CanonsOf(m, fs);
    assert cs[0] == Fold(m[0..6][..2]) + ":" + ['a'];
    assert cs[1] == Fold(m[6..12][..2]) + ":" + ['b'];
  }

  lemma TwoToSigned()
    ensures SignedNames(TWO_TO) == ["to", "to"]
    ensures |SignedCanons(TWO_TO)| == 2 && SignedCanons(TWO_TO)[0] != SignedCanons(TWO_TO)[1]
  {
    TwoToScan();
    TwoToNames();
    TwoToIndices();
    TwoToCanons();
    hide Block, Fields, NamesOf, CanonsOf, Signed;
    var cs := CanonsOf(TWO_TO_BLOCK, [Field(0, 2, 6), Field(6, 8, 12)]);
    assert cs[0][|cs[0]| - 1..] == ['a'] && cs[1][|cs[1]| - 1..] == ['b'];
    assert Choose(["to", "to"], [0, 1]) == ["to", "to"];
  }

  lemma TwoMirrors(canons: seq<string>)
    requires |canons| == 2 && canons[0] != canons[1]
    ensures !SameBothWays(["to", "to"], canons)
  {
    var hn := ["to", "to"];
    assert hn[2..] == [] && hn[..0] == [];
    assert Mirrors(hn, 0, 1);
  }

  /** The verifier rebuilds other bytes than the signer hashed when a message has
      two different headers of one name. */
  lemma RepeatedHeaderExample(p: Params, b: string, decodes: string -> bool)
    requires CleanParams(p) && CleanText(b) && decodes(b)
    ensures VerifierInput(SignatureLine(TWO_TO, p, b) + TWO_TO, decodes) != Some(SignerInput(TWO_TO, p))
  {
    hide VerifierInput, SignatureLine, SignerInput, SignedNames, SignedCanons, CleanParams, CleanText, SameBothWays;
    TwoToSigned();
    TwoMirrors(SignedCanons(TWO_TO));
    InputsAgreeIff(TWO_TO, p, b, decodes);
  }

  // ---------------------------------------------------------------------
  // What is signed
  // ---------------------------------------------------------------------

  /** From, Sender, Reply-To, To, Cc, Date, Subject, Message-ID and the MIME headers
      of a message are signed, every one of them, and no other header is. */
  lemma SignedHeaders(msg: string, i: nat)
    requires i < |Fields(Block(msg), 0)|
    ensures var fs := Fields(Block(msg), 0);
            var ns := NamesOf(Block(msg), fs);
            var n := ns[i];
            && (i in Signed(ns) <==>
                  || n == "from" || n == "sender" || n == "reply-to" || n == "to" || n == "cc" || n == "date"
                  || n == "subject" || n == "message-id" || n == "mime-version" || n == "content-type"
                  || n == "content-transfer-encoding")
            && (i in Signed(ns) ==> n in SignedNames(msg) && CanonsOf(Block(msg), fs)[i] in SignedCanons(msg))
  {
    var fs := Fields(Block(msg), 0);
    hide Fields, Block, NamesOf, CanonsOf, Signed, Choose;
    var ns := NamesOf(Block(msg), fs);
    var idx := Signed(ns);
    hide Inside;
    SignableNames(ns[i]);
    hide SIGNABLE;
    if i in idx {
      var k :| 0 <= k < |idx| && idx[k] == i;
      assert SignedNames(msg)[k] == ns[i];
      assert SignedCanons(msg)[k] == CanonsOf(Block(msg), fs)[i];
    }
  }

  lemma SignableNames(n: string)
    ensures n in SIGNABLE <==>
              || n == "from" || n == "sender" || n == "reply-to" || n == "to" || n == "cc" || n == "date"
              || n == "subject" || n == "message-id" || n == "mime-version" || n == "content-type"
              || n == "content-transfer-encoding"
  {
  }

  // ---------------------------------------------------------------------
  // A folded signature value
  // ---------------------------------------------------------------------

  function Texts(ws: seq<Word>): string {
    if ws == [] then "" else Texts(ws[..|ws| - 1]) + ws[|ws| - 1].text
  }

  /** Folding white space goes and nothing else: what is decoded of a value of b= is
      its pieces, however it is folded. */
  lemma {:induction false} FwsIsRemoved(gap: string, ws: seq<Word>)
    requires OnlyFws(gap) && FoldedWords(ws)
    ensures RemoveFws(gap + WordsText(ws)) == Texts(ws)
    decreases |ws|
  {
    hide OnlyFws, NoFws, RemoveFws, WordsText;
    WordsUnfold(ws);
    RemoveAll(gap);
    if ws == [] {
      NoMore(gap);
    } else {
      var front, w := ws[..|ws| - 1], ws[|ws| - 1];
      FwsIsRemoved(gap, front);
      RemoveJoin(gap + WordsText(front), w.text + w.gap);
      RemoveJoin(w.text, w.gap);
      RemoveNone(w.text);
      RemoveAll(w.gap);
      NoMore(w.text);
      Assoc(gap, WordsText(front) + w.text, w.gap);
      Assoc(gap, WordsText(front), w.text);
      Assoc(gap + WordsText(front), w.text, w.gap);
    }
  }

  lemma {:induction false} RemoveJoin(x: string, y: string)
    ensures RemoveFws(x + y) == RemoveFws(x) + RemoveFws(y)
  {
    if x == "" {
      assert x + y == y;
    } else {
      assert (x + y)[0] == x[0] && (x + y)[1..] == x[1..] + y;
      RemoveJoin(x[1..], y);
      Assoc(if IsFws(x[0]) then "" else [x[0]], RemoveFws(x[1..]), RemoveFws(y));
    }
  }

  lemma {:induction false} RemoveAll(x: string)
    requires OnlyFws(x)
    ensures RemoveFws(x) == ""
  {
    if x != "" {
      assert OnlyFws(x[1..]) by { assert forall k :: 0 <= k < |x| - 1 ==> x[1..][k] == x[k + 1]; }
      RemoveAll(x[1..]);
    }
  }

  lemma {:induction false} RemoveNone(x: string)
    requires NoFws(x)
    ensures RemoveFws(x) == x
  {
    if x != "" {
      assert NoFws(x[1..]) by { assert forall k :: 0 <= k < |x| - 1 ==> x[1..][k] == x[k + 1]; }
      RemoveNone(x[1..]);
      HeadTail(x);
    }
  }

  // ---------------------------------------------------------------------
  // The format of a signature
  // ---------------------------------------------------------------------

  lemma SignatureFormat(p: Params, h: string, b: string)
    ensures SignatureText(p, h, b)
         == "DKIM-Signature: " + ("v=1; " + ("a=rsa-sha256; " + ("c=relaxed/relaxed; " + ("d=" + p.d + "; "
            + ("s=" + p.s + "; " + ("t=" + p.t + "; " + ("bh=" + p.bh + "; " + ("h=" + h)))))))) + "; b=" + b
  {
    hide Render;
    FixedTexts();
    TagsRender(LeadTags(p, h));
    assert HEADER_NAME + ": " == "DKIM-Signature: ";
  }

  lemma FixedTexts()
    ensures "v" + "=" + "1" + "; " == "v=1; " && "a" + "=" + "rsa-sha256" + "; " == "a=rsa-sha256; "
    ensures "c" + "=" + "relaxed/relaxed" + "; " == "c=relaxed/relaxed; "
    ensures "d" + "=" == "d=" && "s" + "=" == "s=" && "t" + "=" == "t=" && "bh" + "=" == "bh=" && "h" + "=" == "h="
  {
  }

  function Piece(t: Tag): string {
    t.name + "=" + t.value + "; "
  }

  lemma TagsRender(ts: seq<Tag>)
    requires |ts| == 8
    ensures Render(ts)
         == Piece(ts[0]) + (Piece(ts[1]) + (Piece(ts[2]) + (Piece(ts[3]) + (Piece(ts[4]) + (Piece(ts[5])
            + (Piece(ts[6]) + (ts[7].name + "=" + ts[7].value)))))))
  {
    hide Render, Piece;
    LastTag(ts[7..]);
    NextTag(ts, 6);
    NextTag(ts, 5);
    NextTag(ts, 4);
    NextTag(ts, 3);
    NextTag(ts, 2);
    NextTag(ts, 1);
    NextTag(ts, 0);
    assert ts[0..] == ts && ts[7..][0] == ts[7];
  }

  lemma LastTag(ts: seq<Tag>)
    requires |ts| == 1
    ensures Render(ts) == ts[0].name + "=" + ts[0].value
  {
  }

  lemma NextTag(ts: seq<Tag>, k: nat)
    requires k + 1 < |ts|
    ensures Render(ts[k..]) == Piece(ts[k]) + Render(ts[k + 1..])
  {
    assert ts[k..][1..] == ts[k + 1..] && ts[k..][0] == ts[k];
  }
}
