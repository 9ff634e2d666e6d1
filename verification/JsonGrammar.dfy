/** The texts of RFC 8259, as a grammar over positions, and the theorem that the
    reader accepts exactly these, each with the value it denotes. */
module JsonGrammar {
  import opened Common
  import opened JsonText
  import opened Json

  // ---------------------------------------------------------------------
  // Strings
  // ---------------------------------------------------------------------

  /** A \u escape, in digits of either case. */
  predicate CodeOf(x: string, n: int) {
    0 <= n < 0x10000 && |x| == 6 && x[0] == '\\' && x[1] == 'u' && Fold(x[2..]) == Hex(n)
  }

  /** The ways to write a character in a string: as it is, as a short escape, as one
      or two \u escapes. */
  predicate Spelled(x: string, cp: int)
    requires Scalar(cp)
  {
    || (cp >= 0x20 && cp != 0x22 && cp != 0x5C && x == Enc(cp))
    || (|x| == 2 && x[0] == '\\' && Letter(cp) == Some(x[1]))
    || (cp < 0x10000 && CodeOf(x, cp))
    || (cp >= 0x10000 && |x| == 12 && CodeOf(x[..6], 0xD800 + (cp - 0x10000) / 1024)
        && CodeOf(x[6..], 0xDC00 + cp % 1024))
  }

  /** t[i..q] writes the characters of `s`. */
  ghost predicate CharsIn(t: string, i: nat, q: nat, s: string)
    decreases q - i
  {
    && i <= q <= |t|
    && ((i == q && s == "") || exists n: nat, cp :: CharIn(t, i, n, q, cp, s) && CharsIn(t, n, q, s[|Enc(cp)|..]))
  }

  /** t[i..n] writes the first character of `s`. */
  predicate CharIn(t: string, i: nat, n: nat, q: nat, cp: int, s: string) {
    && i < n <= q <= |t| && Scalar(cp) && Spelled(t[i..n], cp)
    && |Enc(cp)| <= |s| && s[..|Enc(cp)|] == Enc(cp)
  }

  ghost predicate StringIn(t: string, i: nat, n: nat, s: string) {
    i + 2 <= n <= |t| && t[i] == '"' && t[n - 1] == '"' && CharsIn(t, i + 1, n - 1, s)
  }

  lemma HexDigits(c: char, n: int)
    requires 0 <= n < 16
    ensures HexVal(c) == n <==> Lower(c) == HexDigit(n)
  {
  }

  lemma HexIs(t: string, i: nat, n: int)
    requires 0 <= n < 0x10000 && i + 4 <= |t|
    ensures Hex4(t, i) == Some(n) <==> Fold(t[i..i + 4]) == Hex(n)
  {
    var f, h := Fold(t[i..i + 4]), Hex(n);
    HexDigits(t[i], n / 4096);
    HexDigits(t[i + 1], n / 256 % 16);
    HexDigits(t[i + 2], n / 16 % 16);
    HexDigits(t[i + 3], n % 16);
    assert f == [Lower(t[i]), Lower(t[i + 1]), Lower(t[i + 2]), Lower(t[i + 3])];
    HexValue(HexVal(t[i]), HexVal(t[i + 1]), HexVal(t[i + 2]), HexVal(t[i + 3]), n);
    hide HexVal, HexDigit, Lower;
  }

  lemma HexValue(a: int, b: int, c: int, d: int, n: int)
    requires 0 <= n < 0x10000 && a < 16 && b < 16 && c < 16 && d < 16
    ensures a >= 0 && b >= 0 && c >= 0 && d >= 0 ==>
              (a * 4096 + b * 256 + c * 16 + d == n <==>
               a == n / 4096 && b == n / 256 % 16 && c == n / 16 % 16 && d == n % 16)
  {
    var x, y := n / 16, n / 256;
    assert x / 16 == y && y / 16 == n / 4096;
    assert n == x * 16 + n % 16 && x == y * 16 + x % 16 && y == (y / 16) * 16 + y % 16;
  }

  lemma CodeIs(t: string, i: nat, n: int)
    requires 0 <= n < 0x10000 && i + 6 <= |t|
    ensures CodeOf(t[i..i + 6], n) <==> t[i] == '\\' && t[i + 1] == 'u' && Hex4(t, i + 2) == Some(n)
  {
    HexIs(t, i + 2, n);
    var x := t[i..i + 6];
    assert x[0] == t[i] && x[1] == t[i + 1] && x[2..] == t[i + 2..i + 6];
    hide Hex4, Hex, Fold;
  }

  // ---------------------------------------------------------------------
  // What is decoded is spelled
  // ---------------------------------------------------------------------

  /** A surrogate pair, from the code point and to it. */
  lemma Surrogates(hi: int, lo: int, cp: int)
    requires 0xD800 <= hi <= 0xDBFF && 0xDC00 <= lo <= 0xDFFF
    ensures var x := 0x10000 + (hi - 0xD800) * 1024 + (lo - 0xDC00);
            0x10000 <= x < 0x110000 && hi == 0xD800 + (x - 0x10000) / 1024 && lo == 0xDC00 + x % 1024
  {
    var x := 0x10000 + (hi - 0xD800) * 1024 + (lo - 0xDC00);
    assert x == (hi - 0xD800 + 64) * 1024 + (lo - 0xDC00);
  }

  lemma EscapeIsSpelled(t: string, i: nat, q: nat)
    requires i + 2 <= q <= |t| && t[i] == '\\' && t[i + 1] == 'u' && Unicode(t, i + 2, q).Ok?
    ensures var r := Unicode(t, i + 2, q); Spelled(t[i..r.next], r.value)
  {
    hide Hex4, CodeOf, Letter, Enc;
    var r := Unicode(t, i + 2, q);
    var h := Hex4(t, i + 2).value;
    CodeIs(t, i, h);
    if r.next != i + 6 {
      var lo := Hex4(t, i + 8).value;
      CodeIs(t, i + 6, lo);
      Surrogates(h, lo, r.value);
      assert t[i..i + 12][..6] == t[i..i + 6] && t[i..i + 12][6..] == t[i + 6..i + 12];
    }
  }

  lemma ShortIsLetter(c: char)
    requires Short(c).Some?
    ensures var x := Short(c).value as int; Scalar(x) && x < 0x80 && Letter(x) == Some(c)
  {
  }

  lemma PieceIsSpelled(t: string, i: nat, q: nat) returns (cp: int)
    requires i < q <= |t| && t[i] != '"' && Piece(t, i, q).Ok?
    ensures var r := Piece(t, i, q); Scalar(cp) && r.value == Enc(cp) && Spelled(t[i..r.next], cp)
  {
    hide CodeOf, Letter, SequenceAt, Short, Unicode;
    var c := t[i];
    if c == '\\' && t[i + 1] == 'u' {
      EscapeIsSpelled(t, i, q);
      cp := Unicode(t, i + 2, q).value;
    } else if c == '\\' {
      ShortIsLetter(t[i + 1]);
      cp := Short(t[i + 1]).value as int;
      assert t[i..i + 2] == [c, t[i + 1]];
    } else if c as int < 0x80 {
      cp := c as int;
      assert t[i..i + 1] == [c];
    } else {
      cp := SequenceIsScalar(t, i, q);
      assert t[i] == t[i..i + SequenceAt(t, i, q).value][0] == Enc(cp)[0];
    }
  }

  // ---------------------------------------------------------------------
  // What is spelled is decoded
  // ---------------------------------------------------------------------

  lemma CodeIsRead(t: string, i: nat, q: nat, cp: int)
    requires Scalar(cp) && cp < 0x10000 && i + 6 <= q <= |t| && CodeOf(t[i..i + 6], cp)
    ensures Piece(t, i, q) == Ok(Enc(cp), i + 6)
  {
    CodeIs(t, i, cp);
    hide Hex4, CodeOf, SequenceAt, Enc;
  }

  lemma PairIsRead(t: string, i: nat, q: nat, cp: int)
    requires 0x10000 <= cp < 0x110000 && i + 12 <= q <= |t|
    requires CodeOf(t[i..i + 6], 0xD800 + (cp - 0x10000) / 1024) && CodeOf(t[i + 6..i + 12], 0xDC00 + cp % 1024)
    ensures Piece(t, i, q) == Ok(Enc(cp), i + 12)
  {
    hide Hex4, CodeOf, SequenceAt, Enc;
    var hi, lo := 0xD800 + (cp - 0x10000) / 1024, 0xDC00 + cp % 1024;
    PairParts(cp);
    CodeIs(t, i, hi);
    CodeIs(t, i + 6, lo);
    assert Unicode(t, i + 2, q) == Ok(cp, i + 12);
  }

  /** The first pass does not stop inside an escape. */
  lemma CodeIsPassed(t: string, i: nat, n: int)
    requires 0 <= n < 0x10000 && i + 6 <= |t| && CodeOf(t[i..i + 6], n)
    ensures ClosingQuote(t, i) == ClosingQuote(t, i + 6)
  {
    hide ClosingQuote;
    var x := t[i..i + 6];
    forall k | i + 2 <= k < i + 6 ensures t[k] != '"' && t[k] != '\\' {
      assert x[2..][k - i - 2] == t[k];
      assert Fold(x[2..])[k - i - 2] == Lower(t[k]) == Hex(n)[k - i - 2];
    }
    assert x[0] == t[i];
    EscapeIsPassed(t, i);
    TameIsSkipped(t, i + 2, 4);
  }

  lemma EscapeIsPassed(t: string, i: nat)
    requires i + 2 <= |t| && t[i] == '\\'
    ensures ClosingQuote(t, i) == ClosingQuote(t, i + 2)
  {
  }

  lemma SpelledIsRead(t: string, i: nat, n: nat, q: nat, cp: int)
    requires i < n <= q <= |t| && Scalar(cp) && Spelled(t[i..n], cp)
    ensures Piece(t, i, q) == Ok(Enc(cp), n) && ClosingQuote(t, i) == ClosingQuote(t, n)
  {
    hide Piece, ClosingQuote, CodeOf;
    var x := t[i..n];
    if cp >= 0x20 && cp != 0x22 && cp != 0x5C && x == Enc(cp) {
      assert TextAt(t, i, x);
      RawPiece(t, i, q, cp);
      assert Tame(Enc(cp));
      TameTextIsSkipped(t, i, x);
    } else if |x| == 2 && x[0] == '\\' && Letter(cp) == Some(x[1]) {
      assert TextAt(t, i, ['\\', x[1]]);
      EscapePiece(t, i, q, x[1]);
      EscapeIsPassed(t, i);
      assert Enc(cp) == [cp as char];
    } else if cp < 0x10000 {
      CodeParts(x, cp);
      CodeIsRead(t, i, q, cp);
      CodeIsPassed(t, i, cp);
    } else {
      assert x[..6] == t[i..i + 6] && x[6..] == t[i + 6..i + 12];
      PairIsRead(t, i, q, cp);
      CodeIsPassed(t, i, 0xD800 + (cp - 0x10000) / 1024);
      CodeIsPassed(t, i + 6, 0xDC00 + cp % 1024);
    }
  }

  lemma CodeParts(x: string, n: int)
    requires CodeOf(x, n)
    ensures |x| == 6
  {
  }

  lemma NotAtQuote(t: string, i: nat)
    requires i < ClosingQuote(t, i) <= |t|
    ensures t[i] != '"'
  {
  }

  lemma {:induction false} DecodedIsSpelled(t: string, i: nat, q: nat)
    requires i <= q == ClosingQuote(t, i) && q <= |t| && Decode(t, i, q).Ok?
    ensures CharsIn(t, i, q, Decode(t, i, q).value)
    decreases q - i
  {
    hide Piece, Enc, Spelled;
    if i < q {
      NotAtQuote(t, i);
      hide ClosingQuote;
      var cp := PieceIsSpelled(t, i, q);
      var n, s := Piece(t, i, q).next, Decode(t, i, q).value;
      SpelledIsRead(t, i, n, q, cp);
      DecodedIsSpelled(t, n, q);
      assert s[|Enc(cp)|..] == Decode(t, n, q).value;
      assert CharIn(t, i, n, q, cp, s);
    }
  }

  lemma {:induction false} SpelledIsDecoded(t: string, i: nat, q: nat, s: string)
    requires CharsIn(t, i, q, s)
    ensures i <= q <= |t| && Decode(t, i, q) == Ok(s, q) && ClosingQuote(t, i) == ClosingQuote(t, q)
    decreases q - i
  {
    hide Piece, Enc, Spelled, ClosingQuote;
    if !(i == q && s == "") {
      var n: nat, cp :| CharIn(t, i, n, q, cp, s) && CharsIn(t, n, q, s[|Enc(cp)|..]);
      SpelledIsRead(t, i, n, q, cp);
      SpelledIsDecoded(t, n, q, s[|Enc(cp)|..]);
      DecodeStep(t, i, q, Enc(cp), n, s[|Enc(cp)|..]);
      assert Enc(cp) + s[|Enc(cp)|..] == s;
    }
  }

  /** A literal is read as `s` if and only if it spells `s`. */
  lemma StringIff(t: string, i: nat, n: nat, s: string)
    ensures ParseString(t, i) == Ok(s, n) <==> StringIn(t, i, n, s)
  {
    hide Decode, CharsIn;
    if ParseString(t, i) == Ok(s, n) {
      DecodedIsSpelled(t, i + 1, n - 1);
    }
    if StringIn(t, i, n, s) {
      SpelledIsDecoded(t, i + 1, n - 1, s);
      assert ClosingQuote(t, n - 1) == n - 1;
    }
  }

  // ---------------------------------------------------------------------
  // Values
  // ---------------------------------------------------------------------

  /** White space of RFC 8259, section 2, or none. */
  ghost predicate Gap(t: string, i: nat, j: nat) {
    && i <= j <= |t|
    && forall k :: i <= k < j ==> t[k] == ' ' || t[k] == '\t' || t[k] == '\n' || t[k] == '\r'
  }

  /** A token in t[a..b] with white space around it, in t[i..c]; `n` is further on. */
  ghost predicate Around(t: string, i: nat, a: nat, b: nat, c: nat, n: nat) {
    i <= a < b <= c < n <= |t| && Gap(t, i, a) && Gap(t, b, c)
  }

  ghost predicate NumberIn(x: string, v: Value) {
    exists l :: LiteralForm(l) && LiteralText(l) == x && LiteralValue(l) == v
  }

  /** White space and a closing bracket. */
  ghost predicate Closes(t: string, i: nat, n: nat, c: char) {
    i < n <= |t| && Gap(t, i, n - 1) && t[n - 1] == c
  }

  /** t[i..n] is a text of the value. */
  ghost predicate ValueIn(t: string, i: nat, n: nat, v: Value)
    decreases n - i, 0
  {
    && i < n <= |t|
    && match v
       case Null => t[i..n] == "null"
       case Bool(b) => t[i..n] == if b then "true" else "false"
       case Int(_) => NumberIn(t[i..n], v)
       case Real(_) => NumberIn(t[i..n], v)
       case Str(s) => StringIn(t, i, n, s)
       case Arr(vs) => t[i] == '[' && if vs == [] then Closes(t, i + 1, n, ']') else ItemsIn(t, i + 1, n, vs)
       case Obj(ms) => t[i] == '{' && if ms == [] then Closes(t, i + 1, n, '}') else MembersIn(t, i + 1, n, ms)
  }

  /** t[i..n] is one or more elements with commas between them, and the bracket. */
  ghost predicate ItemsIn(t: string, i: nat, n: nat, vs: seq<Value>)
    requires vs != []
    decreases n - i, 2
  {
    exists a: nat, b: nat, c: nat ::
      && Around(t, i, a, b, c, n) && ValueIn(t, a, b, vs[0])
      && if |vs| == 1 then t[c] == ']' && c + 1 == n else t[c] == ',' && ItemsIn(t, c + 1, n, vs[1..])
  }

  ghost predicate MembersIn(t: string, i: nat, n: nat, ms: seq<Member>)
    requires ms != []
    decreases n - i, 2
  {
    exists c: nat ::
      && i < c < n <= |t| && MemberIn(t, i, c, n, ms[0])
      && if |ms| == 1 then t[c] == '}' && c + 1 == n else t[c] == ',' && MembersIn(t, c + 1, n, ms[1..])
  }

  /** t[i..c] is a member and the white space around it. */
  ghost predicate MemberIn(t: string, i: nat, c: nat, n: nat, m: Member)
    decreases n - i, 1
  {
    exists f: nat, a: nat, b: nat ::
      i < f && KeyIn(t, i, f, m.key) && Around(t, f + 1, a, b, c, n) && ValueIn(t, a, b, m.value)
  }

  /** t[i..f] is a key and the white space around it, and a colon is next. */
  ghost predicate KeyIn(t: string, i: nat, f: nat, key: string) {
    exists k: nat, e: nat :: Around(t, i, k, e, f, f + 1) && StringIn(t, k, e, key) && t[f] == ':'
  }

  /** The whole text is one value with white space around it. */
  ghost predicate DocumentOf(t: string, v: Value) {
    exists a: nat, b: nat :: a <= b && Gap(t, 0, a) && ValueIn(t, a, b, v) && Gap(t, b, |t|)
  }

  lemma {:induction false} SkipIsGap(t: string, i: nat)
    requires i <= |t|
    ensures Gap(t, i, SkipWs(t, i)) && (SkipWs(t, i) < |t| ==> !Space(t[SkipWs(t, i)]))
    decreases |t| - i
  {
    if i < |t| && Space(t[i]) { SkipIsGap(t, i + 1); }
  }

  lemma {:induction false} GapIsSkipped(t: string, i: nat, j: nat)
    requires Gap(t, i, j) && (j < |t| ==> !Space(t[j]))
    ensures SkipWs(t, i) == j
    decreases j - i
  {
    if i < j { GapIsSkipped(t, i + 1, j); }
  }

  // ---------------------------------------------------------------------
  // What is accepted is a text of its value
  // ---------------------------------------------------------------------

  lemma NumberIsWritten(t: string, i: nat)
    requires i < |t| && ParseNumber(t, i).Ok?
    ensures var r := ParseNumber(t, i); ValueIn(t, i, r.next, r.value)
  {
    var l := NumberIsLiteral(t, i);
    hide ParseNumber, LiteralForm, LiteralText, IsInteger, Number;
  }

  lemma {:induction false} ParsedIsWritten(t: string, i: nat, d: nat)
    requires ParseValue(t, i, d).Ok?
    ensures var r := ParseValue(t, i, d); ValueIn(t, i, r.next, r.value)
    decreases |t| - i, 0
  {
    hide ParseNumber, ParseString, StringIn, ItemsIn, MembersIn, NumberIn, Gap;
    if t[i] == '{' {
      var j := SkipWs(t, i + 1);
      SkipIsGap(t, i + 1);
      if !At(t, j, '}') {
        MembersAreWritten(t, j, d);
        var r := ParseMembers(t, j, d);
        GapBeforeMembers(t, i + 1, j, r.next, r.value);
      }
    } else if t[i] == '[' {
      var j := SkipWs(t, i + 1);
      SkipIsGap(t, i + 1);
      if !At(t, j, ']') {
        ItemsAreWritten(t, j, d);
        var r := ParseItems(t, j, d);
        GapBeforeItems(t, i + 1, j, r.next, r.value);
      }
    } else if t[i] == '"' {
      var r := ParseString(t, i);
      StringIff(t, i, r.next, r.value);
    } else if t[i] == '-' || IsDigit(t[i]) {
      NumberIsWritten(t, i);
    }
  }

  lemma GapJoins(t: string, i: nat, j: nat, k: nat)
    requires Gap(t, i, j) && Gap(t, j, k)
    ensures Gap(t, i, k)
  {
  }

  lemma GapBeforeItems(t: string, i: nat, j: nat, n: nat, vs: seq<Value>)
    requires vs != [] && Gap(t, i, j) && ItemsIn(t, j, n, vs)
    ensures ItemsIn(t, i, n, vs)
  {
    hide ValueIn, Gap;
    var a: nat, b: nat, c: nat :| Around(t, j, a, b, c, n) && ValueIn(t, a, b, vs[0])
      && if |vs| == 1 then t[c] == ']' && c + 1 == n else t[c] == ',' && ItemsIn(t, c + 1, n, vs[1..]);
    GapJoins(t, i, j, a);
    GapOrder(t, i, j);
    assert Around(t, i, a, b, c, n);
  }

  lemma GapOrder(t: string, i: nat, j: nat)
    requires Gap(t, i, j)
    ensures i <= j <= |t|
  {
  }

  lemma GapBeforeMembers(t: string, i: nat, j: nat, n: nat, ms: seq<Member>)
    requires ms != [] && Gap(t, i, j) && MembersIn(t, j, n, ms)
    ensures MembersIn(t, i, n, ms)
  {
    hide MemberIn;
    var c: nat :| j < c < n <= |t| && MemberIn(t, j, c, n, ms[0])
      && if |ms| == 1 then t[c] == '}' && c + 1 == n else t[c] == ',' && MembersIn(t, c + 1, n, ms[1..]);
    GapBeforeMember(t, i, j, c, n, ms[0]);
    assert i < c;
  }

  lemma GapBeforeMember(t: string, i: nat, j: nat, c: nat, n: nat, m: Member)
    requires Gap(t, i, j) && MemberIn(t, j, c, n, m)
    ensures i <= j && MemberIn(t, i, c, n, m)
  {
    hide ValueIn, Gap, StringIn;
    GapOrder(t, i, j);
    var f: nat, a: nat, b: nat :|
      j < f && KeyIn(t, j, f, m.key) && Around(t, f + 1, a, b, c, n) && ValueIn(t, a, b, m.value);
    var k: nat, e: nat :| Around(t, j, k, e, f, f + 1) && StringIn(t, k, e, m.key) && t[f] == ':';
    GapJoins(t, i, j, k);
    assert Around(t, i, k, e, f, f + 1);
    assert KeyIn(t, i, f, m.key);
  }

  lemma {:induction false} ItemsAreWritten(t: string, i: nat, d: nat)
    requires i <= |t| && ParseItems(t, i, d).Ok?
    ensures var r := ParseItems(t, i, d); r.value != [] && ItemsIn(t, i, r.next, r.value)
    decreases |t| - i, 1
  {
    hide ValueIn, Gap, SkipWs, ParseValue;
    var r := ParseItems(t, i, d);
    var a := SkipWs(t, i);
    var b := ParseValue(t, a, d + 1).next;
    var c := SkipWs(t, b);
    SkipIsGap(t, i);
    SkipIsGap(t, b);
    ParsedIsWritten(t, a, d + 1);
    if At(t, c, ',') {
      ItemsAreWritten(t, c + 1, d);
      assert r.value[1..] == ParseItems(t, c + 1, d).value;
    }
    assert Around(t, i, a, b, c, r.next);
  }

  lemma {:induction false} MemberIsWritten(t: string, i: nat, d: nat, n: nat)
    requires i <= |t| && ParseMember(t, i, d).Ok? && ParseMember(t, i, d).next < n <= |t|
    ensures var r := ParseMember(t, i, d); i < r.next && MemberIn(t, i, r.next, n, r.value)
    decreases |t| - i, 0
  {
    hide ValueIn, Gap, SkipWs, ParseValue, ParseString, StringIn;
    var r := ParseMember(t, i, d);
    var k := SkipWs(t, i);
    var e := ParseString(t, k).next;
    var f := SkipWs(t, e);
    var a := SkipWs(t, f + 1);
    var b := ParseValue(t, a, d + 1).next;
    StringIff(t, k, e, r.value.key);
    SkipIsGap(t, i);
    SkipIsGap(t, e);
    SkipIsGap(t, f + 1);
    SkipIsGap(t, b);
    ParsedIsWritten(t, a, d + 1);
    assert Around(t, i, k, e, f, f + 1);
    assert KeyIn(t, i, f, r.value.key);
    assert Around(t, f + 1, a, b, r.next, n);
  }

  lemma {:induction false} MembersAreWritten(t: string, i: nat, d: nat)
    requires i <= |t| && ParseMembers(t, i, d).Ok?
    ensures var r := ParseMembers(t, i, d); r.value != [] && MembersIn(t, i, r.next, r.value)
    decreases |t| - i, 1
  {
    hide MemberIn, ParseMember;
    var r := ParseMembers(t, i, d);
    var c := ParseMember(t, i, d).next;
    MemberIsWritten(t, i, d, r.next);
    if At(t, c, ',') {
      MembersAreWritten(t, c + 1, d);
      assert r.value[1..] == ParseMembers(t, c + 1, d).value;
    }
  }

  // ---------------------------------------------------------------------
  // Every text of a value is accepted
  // ---------------------------------------------------------------------

  lemma LiteralStarts(l: Literal)
    requires LiteralForm(l)
    ensures var x := LiteralText(l); x != "" && (x[0] == '-' || IsDigit(x[0]))
  {
    if !l.neg { assert LiteralText(l)[0] == l.whole[0]; }
  }

  /** A value begins with no space and no closing bracket. */
  lemma ValueStarts(t: string, i: nat, n: nat, v: Value)
    requires ValueIn(t, i, n, v)
    ensures i < n <= |t| && !Space(t[i]) && t[i] != ']' && t[i] != '}'
  {
    hide ItemsIn, MembersIn, CharsIn, LiteralForm, LiteralText, LiteralValue, Gap;
    assert t[i] == t[i..n][0];
    if v.Int? || v.Real? {
      var l :| LiteralForm(l) && LiteralText(l) == t[i..n] && LiteralValue(l) == v;
      LiteralStarts(l);
    }
  }

  lemma NumberIsParsed(t: string, i: nat, n: nat, v: Value)
    requires i < n <= |t| && NumberIn(t[i..n], v) && Stop(t, n)
    ensures (t[i] == '-' || IsDigit(t[i])) && ParseNumber(t, i) == Ok(v, n)
  {
    hide LiteralForm, LiteralText, LiteralValue, ParseNumber, Stop;
    var l :| LiteralForm(l) && LiteralText(l) == t[i..n] && LiteralValue(l) == v;
    NumberParses(t, i, l);
  }

  /** Where a token may stop. */
  lemma StopsAround(t: string, i: nat, a: nat, b: nat, c: nat, n: nat)
    requires Around(t, i, a, b, c, n) && (t[c] == ',' || t[c] == ']' || t[c] == '}')
    ensures Stop(t, b) && SkipWs(t, b) == c
  {
    GapIsSkipped(t, b, c);
  }

  lemma {:induction false} WrittenIsParsed(t: string, i: nat, n: nat, v: Value, d: nat)
    requires ValueIn(t, i, n, v) && Proper(v, d) && Stop(t, n)
    ensures ParseValue(t, i, d) == Ok(v, n)
    decreases n - i, 2
  {
    hide ParseNumber, ParseString, StringIn, NumberIn, ParseLiteral, Stop, Gap;
    match v
    case Null => WordIsParsed(t, i, n, "null", v);
    case Bool(b) => WordIsParsed(t, i, n, if b then "true" else "false", v);
    case Int(_) => NumberIsParsed(t, i, n, v);
    case Real(_) => NumberIsParsed(t, i, n, v);
    case Str(s) =>
      StringIff(t, i, n, s);
      StringOpens(t, i, n, s);
    case Arr(vs) => ArrayIsParsed(t, i, n, vs, d);
    case Obj(ms) => ObjectIsParsed(t, i, n, ms, d);
  }

  lemma StringOpens(t: string, i: nat, n: nat, s: string)
    requires StringIn(t, i, n, s)
    ensures i < |t| && t[i] == '"'
  {
  }

  lemma WordIsParsed(t: string, i: nat, n: nat, word: string, v: Value)
    requires i < n <= |t| && t[i..n] == word && word != ""
    ensures t[i] == word[0] && ParseLiteral(t, i, word, v) == Ok(v, n)
  {
    assert t[i] == t[i..n][0];
  }

  lemma ClosesAtOnce(t: string, i: nat, n: nat, c: char)
    requires Closes(t, i, n, c) && !Space(c)
    ensures SkipWs(t, i) == n - 1 && At(t, n - 1, c)
  {
    GapIsSkipped(t, i, n - 1);
  }

  lemma {:induction false} ArrayIsParsed(t: string, i: nat, n: nat, vs: seq<Value>, d: nat)
    requires ValueIn(t, i, n, Arr(vs)) && Proper(Arr(vs), d)
    ensures ParseValue(t, i, d) == Ok(Arr(vs), n)
    decreases n - i, 1
  {
    hide Proper, ItemsIn, ParseItems, SkipWs, Gap, Closes, ValueIn, ParseValue;
    ProperItems(vs, d);
    ArrayShape(t, i, n, vs);
    if vs == [] {
      ClosesAtOnce(t, i + 1, n, ']');
      EmptyArray(t, i, d, n - 1);
    } else {
      ItemsAreParsed(t, i + 1, n, vs, d);
      ItemsSkip(t, i + 1, d);
      ArrayOpens(t, i, d, SkipWs(t, i + 1), vs, n);
    }
  }

  lemma ArrayShape(t: string, i: nat, n: nat, vs: seq<Value>)
    requires ValueIn(t, i, n, Arr(vs))
    ensures i < n <= |t| && At(t, i, '[')
    ensures if vs == [] then Closes(t, i + 1, n, ']') else ItemsIn(t, i + 1, n, vs)
  {
    hide Closes;
  }

  lemma EmptyArray(t: string, i: nat, d: nat, j: nat)
    requires d <= MAX_DEPTH && At(t, i, '[') && SkipWs(t, i + 1) == j && At(t, j, ']')
    ensures ParseValue(t, i, d) == Ok(Arr([]), j + 1)
  {
    hide SkipWs, ParseItems;
  }

  lemma ProperItems(vs: seq<Value>, d: nat)
    requires Proper(Arr(vs), d)
    ensures d <= MAX_DEPTH && forall k :: 0 <= k < |vs| ==> Proper(vs[k], d + 1)
  {
    var v := Arr(vs);
    assert forall k :: 0 <= k < |v.items| ==> Proper(v.items[k], d + 1);
  }

  /** The elements are read, from where the first one begins. */
  lemma {:induction false} ItemsAreParsed(t: string, i: nat, n: nat, vs: seq<Value>, d: nat)
    requires vs != [] && ItemsIn(t, i, n, vs) && forall k :: 0 <= k < |vs| ==> Proper(vs[k], d + 1)
    ensures i <= |t| && ParseItems(t, i, d) == Ok(vs, n)
    ensures var j := SkipWs(t, i); j < |t| && SkipWs(t, j) == j && !At(t, j, ']')
    decreases n - i, 1
  {
    hide ValueIn, Gap, ParseValue, ParseItems, SkipWs, Proper, Stop;
    var a: nat, b: nat, c: nat :| Around(t, i, a, b, c, n) && ValueIn(t, a, b, vs[0])
      && if |vs| == 1 then t[c] == ']' && c + 1 == n else t[c] == ',' && ItemsIn(t, c + 1, n, vs[1..]);
    ValueStarts(t, a, b, vs[0]);
    GapIsSkipped(t, i, a);
    NoGap(t, a);
    StopsAround(t, i, a, b, c, n);
    WrittenIsParsed(t, a, b, vs[0], d + 1);
    if |vs| == 1 {
      LastItem(t, a, d, vs[0], b, c);
      assert vs == [vs[0]];
    } else {
      ItemsAreParsed(t, c + 1, n, vs[1..], d);
      NextItem(t, a, d, vs[0], b, c, vs[1..], n);
      assert vs == [vs[0]] + vs[1..];
    }
    ItemsSkip(t, i, d);
  }

  lemma NoGap(t: string, i: nat)
    requires i < |t| && !Space(t[i])
    ensures SkipWs(t, i) == i
  {
  }

  lemma {:induction false} ObjectIsParsed(t: string, i: nat, n: nat, ms: seq<Member>, d: nat)
    requires ValueIn(t, i, n, Obj(ms)) && Proper(Obj(ms), d)
    ensures ParseValue(t, i, d) == Ok(Obj(ms), n)
    decreases n - i, 1
  {
    hide Proper, MembersIn, ParseMembers, SkipWs, Gap, Closes, ValueIn, ParseValue;
    ProperMembers(ms, d);
    ObjectShape(t, i, n, ms);
    if ms == [] {
      ClosesAtOnce(t, i + 1, n, '}');
      EmptyObject(t, i, d, n - 1);
    } else {
      MembersAreParsed(t, i + 1, n, ms, d);
      MembersSkip(t, i + 1, d);
      ObjectOpens(t, i, d, SkipWs(t, i + 1), ms, n);
    }
  }

  lemma ObjectShape(t: string, i: nat, n: nat, ms: seq<Member>)
    requires ValueIn(t, i, n, Obj(ms))
    ensures i < n <= |t| && At(t, i, '{')
    ensures if ms == [] then Closes(t, i + 1, n, '}') else MembersIn(t, i + 1, n, ms)
  {
    hide Closes;
  }

  lemma EmptyObject(t: string, i: nat, d: nat, j: nat)
    requires d <= MAX_DEPTH && At(t, i, '{') && SkipWs(t, i + 1) == j && At(t, j, '}')
    ensures ParseValue(t, i, d) == Ok(Obj([]), j + 1)
  {
    hide SkipWs, ParseMembers;
  }

  lemma ProperMembers(ms: seq<Member>, d: nat)
    requires Proper(Obj(ms), d)
    ensures d <= MAX_DEPTH && forall k :: 0 <= k < |ms| ==> Proper(ms[k].value, d + 1)
  {
    var v := Obj(ms);
    assert forall k :: 0 <= k < |v.members| ==> Proper(v.members[k].value, d + 1);
  }

  lemma {:induction false} MemberIsParsed(t: string, i: nat, c: nat, n: nat, m: Member, d: nat)
    requires MemberIn(t, i, c, n, m) && Proper(m.value, d + 1) && c < n <= |t| && (t[c] == ',' || t[c] == '}')
    ensures i <= |t| && ParseMember(t, i, d) == Ok(m, c)
    ensures var j := SkipWs(t, i); j < |t| && SkipWs(t, j) == j && !At(t, j, '}')
    decreases n - i, 0
  {
    hide ValueIn, Gap, ParseValue, ParseMember, ParseString, SkipWs, Proper, Stop, CharsIn;
    var f: nat, a: nat, b: nat :|
      i < f && KeyIn(t, i, f, m.key) && Around(t, f + 1, a, b, c, n) && ValueIn(t, a, b, m.value);
    var k: nat, e: nat :| Around(t, i, k, e, f, f + 1) && StringIn(t, k, e, m.key) && t[f] == ':';
    StringIff(t, k, e, m.key);
    GapIsSkipped(t, i, k);
    NoGap(t, k);
    GapIsSkipped(t, e, f);
    ValueStarts(t, a, b, m.value);
    GapIsSkipped(t, f + 1, a);
    StopsAround(t, f + 1, a, b, c, n);
    WrittenIsParsed(t, a, b, m.value, d + 1);
    MemberSteps(t, k, d, m, e, f, a, b, c);
    MemberSkips(t, i, d);
  }

  lemma {:induction false} MembersAreParsed(t: string, i: nat, n: nat, ms: seq<Member>, d: nat)
    requires ms != [] && MembersIn(t, i, n, ms) && forall k :: 0 <= k < |ms| ==> Proper(ms[k].value, d + 1)
    ensures i <= |t| && ParseMembers(t, i, d) == Ok(ms, n)
    ensures var j := SkipWs(t, i); j < |t| && SkipWs(t, j) == j && !At(t, j, '}')
    decreases n - i, 1
  {
    hide MemberIn, ParseMember, ParseMembers, SkipWs, Proper;
    var c: nat :| i < c < n <= |t| && MemberIn(t, i, c, n, ms[0])
      && if |ms| == 1 then t[c] == '}' && c + 1 == n else t[c] == ',' && MembersIn(t, c + 1, n, ms[1..]);
    MemberIsParsed(t, i, c, n, ms[0], d);
    if |ms| == 1 {
      LastMember(t, i, d, ms[0], c);
      assert ms == [ms[0]];
    } else {
      MembersAreParsed(t, c + 1, n, ms[1..], d);
      NextMember(t, i, d, ms[0], c, ms[1..], n);
      assert ms == [ms[0]] + ms[1..];
    }
  }

  // ---------------------------------------------------------------------
  // The reader reads JSON
  // ---------------------------------------------------------------------

  /** A text is accepted with a value if and only if it is a text of that value and
      the value is within the limits. */
  lemma AcceptedIff(t: string, v: Value)
    ensures Parse(t) == Ok(v, |t|) <==> DocumentOf(t, v) && Proper(v, 1)
  {
    hide ParseValue, ValueIn, Proper, SkipWs, Gap, Stop;
    SkipIsGap(t, 0);
    var a := SkipWs(t, 0);
    if Parse(t) == Ok(v, |t|) {
      var b := ParseValue(t, a, 1).next;
      ParsedIsProper(t, a, 1);
      ParsedIsWritten(t, a, 1);
      SkipIsGap(t, b);
    }
    if DocumentOf(t, v) && Proper(v, 1) {
      var a: nat, b: nat :| a <= b && Gap(t, 0, a) && ValueIn(t, a, b, v) && Gap(t, b, |t|);
      ValueStarts(t, a, b, v);
      GapIsSkipped(t, 0, a);
      GapIsSkipped(t, b, |t|);
      StopsAtGap(t, b);
      WrittenIsParsed(t, a, b, v, 1);
    }
  }

  lemma StopsAtGap(t: string, b: nat)
    requires Gap(t, b, |t|)
    ensures Stop(t, b)
  {
  }

  /** Every other text is refused, and so is a text of a value that is not within
      the limits. */
  lemma RefusedIff(t: string)
    ensures Parse(t).Err? <==> forall v :: DocumentOf(t, v) ==> !Proper(v, 1)
  {
    hide ParseValue, DocumentOf, Proper;
    if Parse(t).Ok? { AcceptedIff(t, Parse(t).value); }
    forall v | DocumentOf(t, v) && Proper(v, 1) ensures Parse(t).Ok? { AcceptedIff(t, v); }
  }

  /** No text has two values. */
  lemma ValueIsUnique(t: string, v: Value, w: Value)
    requires DocumentOf(t, v) && Proper(v, 1) && DocumentOf(t, w) && Proper(w, 1)
    ensures v == w
  {
    AcceptedIff(t, v);
    AcceptedIff(t, w);
    hide Parse, DocumentOf, Proper;
  }
}
