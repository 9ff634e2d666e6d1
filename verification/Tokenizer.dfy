/** Quoted strings of assembled IMAP commands: how the command reader wraps a
    literal, and how the tokenizer takes a string out again. */
module Tokenizer {
  import opened Common

  predicate NeedsEscape(c: char) {
    c == '"' || c == '\\'
  }

  /** The bytes of a literal inside quotes. */
  function Quote(x: string): string {
    if x == "" then "" else Quote(x[..|x| - 1]) + QuoteByte(x[|x| - 1])
  }

  function QuoteByte(c: char): string {
    if NeedsEscape(c) then ['\\', c] else [c]
  }

  lemma {:induction false} QuoteJoin(a: string, b: string)
    ensures Quote(a + b) == Quote(a) + Quote(b)
  {
    if b == "" {
      assert a + b == a;
    } else {
      hide QuoteByte;
      var front, last, ab := b[..|b| - 1], b[|b| - 1], a + b;
      assert ab[..|ab| - 1] == a + front && ab[|ab| - 1] == last;
      QuoteJoin(a, front);
      Assoc(Quote(a), Quote(front), QuoteByte(last));
    }
  }

  lemma {:induction false} QuoteLength(x: string)
    ensures |x| <= |Quote(x)| <= 2 * |x|
  {
    if x != "" {
      QuoteLength(x[..|x| - 1]);
    }
  }

  // ---------------------------------------------------------------------
  // imapd_next_astring
  // ---------------------------------------------------------------------

  /** Nothing left, a malformed token, or a token and the offset behind it. */
  datatype Token = End | Malformed | Tok(bytes: string, next: nat)

  /** The text of a C string: everything before the first NUL. */
  function CutNul(s: string): (r: string)
    ensures r <= s && '\0' !in r
    ensures '\0' !in s ==> r == s
  {
    if s == "" then ""
    else if s[0] == '\0' then ""
    else [s[0]] + CutNul(s[1..])
  }

  function SkipSpaces(s: string, i: nat): (r: nat)
    requires i <= |s|
    ensures i <= r <= |s|
    decreases |s| - i
  {
    if i < |s| && s[i] == ' ' then SkipSpaces(s, i + 1) else i
  }

  /** Inside quotes from offset `i`, with `acc` read so far. */
  function Unquote(s: string, i: nat, acc: string): Token
    requires i <= |s|
    decreases |s| - i
  {
    if i == |s| then Malformed
    else if s[i] == '\\' then
      if i + 1 == |s| then Malformed else Unquote(s, i + 2, acc + [s[i + 1]])
    else if s[i] == '"' then Tok(acc, i + 1)
    else Unquote(s, i + 1, acc + [s[i]])
  }

  /** Bytes above 0x7f are atom bytes too: the upper bound is compared as a signed char. */
  predicate IsAtomByte(c: char) {
    c > ' ' && c != 127 as char && c != '(' && c != ')' && c != '"' && c != '{'
  }

  function AtomEnd(s: string, i: nat): (r: nat)
    requires i <= |s|
    ensures i <= r <= |s|
    decreases |s| - i
  {
    if i < |s| && IsAtomByte(s[i]) then AtomEnd(s, i + 1) else i
  }

  function NextAstring(s: string, i: nat): Token
    requires i <= |s|
  {
    var j := SkipSpaces(s, i);
    if j == |s| then End
    else if s[j] == '"' then Unquote(s, j + 1, "")
    else
      var e := AtomEnd(s, j);
      if e == j then Malformed else Tok(s[j..e], e)
  }

  /** The tokenizer as a cursor loop. */
  method NextAstringLoop(s: string, start: nat) returns (t: Token)
    requires start <= |s|
    ensures t == NextAstring(s, start)
  {
    var p := start;
    while p < |s| && s[p] == ' '
      invariant start <= p <= |s| && SkipSpaces(s, start) == SkipSpaces(s, p)
    {
      p := p + 1;
    }
    if p == |s| { return End; }
    if s[p] == '"' {
      var buf := "";
      ghost var whole := Unquote(s, p + 1, "");
      p := p + 1;
      while true
        invariant p <= |s| && whole == Unquote(s, p, buf)
        decreases |s| - p
      {
        if p == |s| { return Malformed; }
        var ch := s[p];
        if ch == '\\' {
          p := p + 1;
          if p == |s| { return Malformed; }
          ch := s[p];
          p := p + 1;
        } else if ch == '"' {
          return Tok(buf, p + 1);
        } else {
          p := p + 1;
        }
        buf := buf + [ch];
      }
    }
    var first := p;
    while p < |s| && IsAtomByte(s[p])
      invariant first <= p <= |s| && AtomEnd(s, first) == AtomEnd(s, p)
    {
      p := p + 1;
    }
    if p == first { return Malformed; }
    t := Tok(s[first..p], p);
  }

  // ---------------------------------------------------------------------
  // Round trip
  // ---------------------------------------------------------------------

  /** The quoted bytes stand at offset `i` of `s`, with the closing quote behind them. */
  ghost predicate QuotedAt(s: string, i: nat, x: string) {
    TextAt(s, i, Quote(x)) && TextAt(s, i + |Quote(x)|, "\"")
  }

  lemma {:induction false} QuoteFront(x: string)
    requires x != ""
    ensures Quote(x) == QuoteByte(x[0]) + Quote(x[1..])
  {
    assert x == [x[0]] + x[1..];
    QuoteJoin([x[0]], x[1..]);
    assert [x[0]][..0] == "";
    assert Quote([x[0]]) == QuoteByte(x[0]);
  }

  /** The first byte of quoted text, and the rest of it. */
  lemma QuotedFront(s: string, i: nat, x: string)
    requires x != "" && QuotedAt(s, i, x)
    ensures if NeedsEscape(x[0]) then s[i] == '\\' && s[i + 1] == x[0] && QuotedAt(s, i + 2, x[1..])
            else s[i] == x[0] && QuotedAt(s, i + 1, x[1..])
    ensures |Quote(x)| == |QuoteByte(x[0])| + |Quote(x[1..])|
  {
    hide Quote, TextAt;
    QuoteFront(x);
    var b := QuoteByte(x[0]);
    TextAtJoin(s, i, b, Quote(x[1..]));
    TextAtIndex(s, i, b, 0);
    if NeedsEscape(x[0]) { TextAtIndex(s, i, b, 1); }
  }

  lemma QuotedInside(s: string, i: nat, x: string)
    requires QuotedAt(s, i, x)
    ensures i + |Quote(x)| < |s| && s[i + |Quote(x)|] == '"' && (x == "" ==> Quote(x) == "")
  {
    TextAtHead(s, i + |Quote(x)|, "\"");
  }

  /** Taking a wrapped literal out of the quotes gives its bytes. */
  lemma {:induction false} UnquoteQuote(s: string, i: nat, x: string, acc: string)
    requires i <= |s| && QuotedAt(s, i, x)
    ensures Unquote(s, i, acc) == Tok(acc + x, i + |Quote(x)| + 1)
    decreases x
  {
    hide QuotedAt, Quote, TextAt;
    QuotedInside(s, i, x);
    if x == "" {
      assert acc + x == acc;
    } else {
      QuotedFront(s, i, x);
      UnquoteQuote(s, i + |QuoteByte(x[0])|, x[1..], acc + [x[0]]);
      assert acc + [x[0]] + x[1..] == acc + x;
    }
  }

  /** A quoted text that is cut off has no token. */
  lemma {:induction false} UnquoteOpen(s: string, i: nat, x: string, acc: string)
    requires TextAt(s, i, Quote(x)) && i + |Quote(x)| == |s|
    ensures Unquote(s, i, acc) == Malformed
    decreases x
  {
    if x != "" {
      hide Quote, TextAt;
      QuoteFront(x);
      var b := QuoteByte(x[0]);
      TextAtJoin(s, i, b, Quote(x[1..]));
      TextAtIndex(s, i, b, 0);
      if NeedsEscape(x[0]) { TextAtIndex(s, i, b, 1); }
      UnquoteOpen(s, i + |b|, x[1..], acc + [x[0]]);
    }
  }

  lemma {:induction false} CutNulJoin(a: string, b: string)
    ensures CutNul(a + b) == if '\0' in a then CutNul(a) else a + CutNul(b)
  {
    if a == "" {
      assert a + b == b;
    } else {
      assert (a + b)[0] == a[0] && (a + b)[1..] == a[1..] + b;
      CutNulJoin(a[1..], b);
    }
  }

  /** A NUL byte stays one inside quotes. */
  lemma {:induction false} CutNulQuote(x: string)
    ensures CutNul(Quote(x)) == Quote(CutNul(x))
    ensures '\0' in Quote(x) <==> '\0' in x
  {
    if x != "" {
      var b := QuoteByte(x[0]);
      QuoteFront(x);
      CutNulJoin(b, Quote(x[1..]));
      CutNulQuote(x[1..]);
      if x[0] != '\0' {
        assert CutNul(x) == [x[0]] + CutNul(x[1..]);
        QuoteFront(CutNul(x));
      }
    }
  }

  /** What the tokenizer makes of a literal wrapped at offset `n`: exactly its
      bytes, unless one of them is NUL, which ends the C string inside the quotes. */
  function ReadBack(x: string, n: nat): Token {
    if '\0' in x then Malformed else Tok(x, n + 2 + |Quote(x)| + 1)
  }

  /** A literal wrapped into a command is tokenized back to exactly its bytes if and
      only if none of them is NUL. */
  lemma LiteralRoundTrip(pre: string, x: string, post: string)
    requires '\0' !in pre
    ensures var cmd := CutNul(pre + " \"" + Quote(x) + "\"" + post);
            |pre| <= |cmd| && NextAstring(cmd, |pre|) == ReadBack(x, |pre|)
  {
    hide CutNul, Quote, NextAstring;
    CutWrapped(pre, x, post);
    if '\0' in x {
      OpenQuote(pre, CutNul(x));
    } else {
      ClosedQuote(pre, x, CutNul(post));
    }
  }

  /** The C string of a command with a wrapped literal. */
  lemma CutWrapped(pre: string, x: string, post: string)
    requires '\0' !in pre
    ensures CutNul(pre + " \"" + Quote(x) + "\"" + post)
         == pre + " \"" + if '\0' in x then Quote(CutNul(x)) else Quote(x) + "\"" + CutNul(post)
  {
    hide CutNul, Quote;
    var open, q := pre + " \"", Quote(x);
    assert '\0' !in open && '\0' !in "\"";
    CutNulQuote(x);
    CutNulJoin("\"", post);
    CutNulJoin(q, "\"" + post);
    CutNulJoin(open, q + ("\"" + post));
    Assoc(open, q, "\"" + post);
    Assoc(open + q, "\"", post);
    Assoc(q, "\"", CutNul(post));
  }

  /** A token that opens with a quote is read behind it. */
  lemma QuoteOpens(pre: string, rest: string)
    ensures var cmd, n := pre + " \"" + rest, |pre|;
            NextAstring(cmd, n) == Unquote(cmd, n + 2, "") && TextAt(cmd, n + 2, rest)
  {
    var cmd, n := pre + " \"" + rest, |pre|;
    assert cmd[n] == ' ' && cmd[n + 1] == '"';
    assert SkipSpaces(cmd, n) == n + 1;
  }

  lemma OpenQuote(pre: string, x: string)
    ensures NextAstring(pre + " \"" + Quote(x), |pre|) == Malformed
  {
    hide NextAstring, Unquote, Quote, TextAt;
    QuoteOpens(pre, Quote(x));
    UnquoteOpen(pre + " \"" + Quote(x), |pre| + 2, x, "");
  }

  lemma ClosedQuote(pre: string, x: string, post: string)
    ensures var cmd := pre + " \"" + (Quote(x) + "\"" + post);
            NextAstring(cmd, |pre|) == Tok(x, |pre| + 2 + |Quote(x)| + 1)
  {
    hide NextAstring, Unquote, Quote, TextAt;
    var cmd, n, q := pre + " \"" + (Quote(x) + "\"" + post), |pre|, Quote(x);
    QuoteOpens(pre, q + "\"" + post);
    TextAtJoin(cmd, n + 2, q + "\"", post);
    TextAtJoin(cmd, n + 2, q, "\"");
    UnquoteQuote(cmd, n + 2, x, "");
    assert "" + x == x;
  }

  // ---------------------------------------------------------------------
  // Unquoted tokens
  // ---------------------------------------------------------------------

  /** Bytes that end an unquoted token: controls, space, DEL, parentheses, the quote
      and the brace of a literal. */
  predicate Special(c: char) {
    c <= ' ' || c as int == 127 || c in "()\"{"
  }

  predicate Atom(x: string) {
    x != "" && forall k :: 0 <= k < |x| ==> !Special(x[k])
  }

  lemma {:induction false} AtomEndsAt(s: string, i: nat, k: nat)
    requires i <= k <= |s| && (forall j :: i <= j < k ==> !Special(s[j])) && (k < |s| ==> Special(s[k]))
    ensures AtomEnd(s, i) == k
    decreases k - i
  {
    if i < k { AtomEndsAt(s, i + 1, k); }
  }

  lemma {:induction false} SpacesSkipped(s: string, i: nat, k: nat)
    requires i <= k < |s| && (forall j :: i <= j < k ==> s[j] == ' ') && s[k] != ' '
    ensures SkipSpaces(s, i) == k
    decreases k - i
  {
    if i < k { SpacesSkipped(s, i + 1, k); }
  }

  /** An atom behind any number of spaces is tokenized to exactly its bytes: up to
      the next special byte or the end of the command. */
  lemma AtomRoundTrip(pre: string, spaces: string, x: string, post: string)
    requires (forall k :: 0 <= k < |spaces| ==> spaces[k] == ' ') && Atom(x) && (post != "" ==> Special(post[0]))
    ensures NextAstring(pre + spaces + x + post, |pre|) == Tok(x, |pre| + |spaces| + |x|)
  {
    var s, i, k := pre + spaces + x + post, |pre| + |spaces|, |pre| + |spaces| + |x|;
    assert s[i..k] == x && (k < |s| ==> s[k] == post[0]) && s[i] == x[0];
    forall j | i <= j < k ensures !Special(s[j]) { assert s[j] == x[j - i]; }
    assert forall j :: |pre| <= j < i ==> s[j] == spaces[j - |pre|];
    SpacesSkipped(s, |pre|, i);
    AtomEndsAt(s, i, k);
  }

  /** Behind its spaces, a byte that neither opens a quote nor belongs to an atom is
      malformed, and the end of the command has no token. */
  lemma NoToken(pre: string, spaces: string, post: string)
    requires (forall k :: 0 <= k < |spaces| ==> spaces[k] == ' ')
    requires post != "" ==> Special(post[0]) && post[0] != ' ' && post[0] != '"'
    ensures NextAstring(pre + spaces + post, |pre|) == if post == "" then End else Malformed
  {
    var s, i := pre + spaces + post, |pre| + |spaces|;
    assert forall j :: |pre| <= j < i ==> s[j] == spaces[j - |pre|];
    if post == "" {
      OnlySpaces(s, |pre|);
    } else {
      assert s[i] == post[0];
      SpacesSkipped(s, |pre|, i);
      AtomEndsAt(s, i, i);
    }
  }

  lemma {:induction false} OnlySpaces(s: string, i: nat)
    requires i <= |s| && forall j :: i <= j < |s| ==> s[j] == ' '
    ensures SkipSpaces(s, i) == |s|
    decreases |s| - i
  {
    if i < |s| { OnlySpaces(s, i + 1); }
  }
}
