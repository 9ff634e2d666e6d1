/** The JMAP JSON reader: recursive descent over a cursor, and the standard
    printing it must read back. */
module Json {
  import opened Common
  import opened JsonText

  const MAX_DEPTH: nat := 32

  /** `Real` is a number that is not an int64, kept as its literal. */
  datatype Value =
    | Null
    | Bool(b: bool)
    | Int(n: int)
    | Real(text: string)
    | Str(s: string)
    | Arr(items: seq<Value>)
    | Obj(members: seq<Member>)

  datatype Member = Member(key: string, value: Value)

  // ---------------------------------------------------------------------
  // Parsing
  // ---------------------------------------------------------------------

  predicate Space(c: char) {
    c == ' ' || c == '\t' || c == '\n' || c == '\r'
  }

  function SkipWs(t: string, i: nat): (r: nat)
    ensures i <= r && (i <= |t| ==> r <= |t|)
    decreases |t| - i
  {
    if i < |t| && Space(t[i]) then SkipWs(t, i + 1) else i
  }

  /** End of the integer part that starts at `s`. */
  function IntegerEnd(t: string, s: nat): (r: Option<nat>)
    ensures r.Some? ==> s < r.value <= |t|
  {
    if !DigitAt(t, s) then None
    else if t[s] == '0' then if DigitAt(t, s + 1) then None else Some(s + 1)
    else Some(DigitsEnd(t, s + 1))
  }

  /** End of the optional fraction. */
  function FractionEnd(t: string, i: nat): (r: Option<nat>)
    requires i <= |t|
    ensures r.Some? ==> i <= r.value <= |t|
  {
    if i < |t| && t[i] == '.' then if DigitAt(t, i + 1) then Some(DigitsEnd(t, i + 1)) else None
    else Some(i)
  }

  /** End of the optional exponent. */
  function ExponentEnd(t: string, i: nat): (r: Option<nat>)
    requires i <= |t|
    ensures r.Some? ==> i <= r.value <= |t|
  {
    if i < |t| && (t[i] == 'e' || t[i] == 'E') then
      var k := if i + 1 < |t| && (t[i + 1] == '+' || t[i + 1] == '-') then i + 2 else i + 1;
      if DigitAt(t, k) then Some(DigitsEnd(t, k)) else None
    else Some(i)
  }

  function Signed(negative: bool, m: nat): int {
    if negative then 0 - m else m
  }

  /** p_number. */
  function ParseNumber(t: string, i: nat): (r: Result<Value>)
    requires i < |t|
    ensures r.Ok? ==> i < r.next <= |t|
  {
    var s := if t[i] == '-' then i + 1 else i;
    var e1 := IntegerEnd(t, s);
    if e1.None? then Err(BadNumber)
    else
      var e2 := FractionEnd(t, e1.value);
      if e2.None? then Err(BadNumber)
      else
        var e3 := ExponentEnd(t, e2.value);
        if e3.None? || e3.value - i >= 64 then Err(BadNumber)
        else
          var n := Signed(t[i] == '-', Number(t, s, 0));
          if e3.value == e1.value && Int64(n) then Ok(Int(n), e3.value)
          else Ok(Real(t[i..e3.value]), e3.value)
  }

  /** p_literal. */
  function ParseLiteral(t: string, i: nat, word: string, v: Value): (r: Result<Value>)
    requires i < |t| && word != ""
    ensures r.Ok? ==> i < r.next <= |t|
  {
    if i + |word| <= |t| && t[i..i + |word|] == word then Ok(v, i + |word|) else Err(Syntax)
  }

  predicate At(t: string, i: nat, c: char) {
    i < |t| && t[i] == c
  }

  /** p_value. */
  function ParseValue(t: string, i: nat, depth: nat): (r: Result<Value>)
    ensures r.Ok? ==> i < r.next <= |t|
    decreases |t| - i, 0
  {
    if depth > MAX_DEPTH then Err(TooDeep)
    else if i >= |t| then Err(Syntax)
    else if t[i] == '{' then
      var j := SkipWs(t, i + 1);
      if At(t, j, '}') then Ok(Obj([]), j + 1)
      else match ParseMembers(t, j, depth)
        case Err(e) => Err(e)
        case Ok(ms, n) => Ok(Obj(ms), n)
    else if t[i] == '[' then
      var j := SkipWs(t, i + 1);
      if At(t, j, ']') then Ok(Arr([]), j + 1)
      else match ParseItems(t, j, depth)
        case Err(e) => Err(e)
        case Ok(vs, n) => Ok(Arr(vs), n)
    else if t[i] == '"' then
      match ParseString(t, i)
      case Err(e) => Err(e)
      case Ok(s, n) => Ok(Str(s), n)
    else if t[i] == 't' then ParseLiteral(t, i, "true", Bool(true))
    else if t[i] == 'f' then ParseLiteral(t, i, "false", Bool(false))
    else if t[i] == 'n' then ParseLiteral(t, i, "null", Null)
    else if t[i] == '-' || IsDigit(t[i]) then ParseNumber(t, i)
    else Err(Syntax)
  }

  /** "key" : value, and the position after it and the space that follows. */
  function ParseMember(t: string, i: nat, depth: nat): (r: Result<Member>)
    requires i <= |t|
    ensures r.Ok? ==> i < r.next <= |t|
    decreases |t| - i, 0
  {
    match ParseString(t, SkipWs(t, i))
    case Err(e) => Err(e)
    case Ok(k, n) =>
      var j := SkipWs(t, n);
      if !At(t, j, ':') then Err(Syntax)
      else match ParseValue(t, SkipWs(t, j + 1), depth + 1)
        case Err(e) => Err(e)
        case Ok(v, m) => Ok(Member(k, v), SkipWs(t, m))
  }

  /** The members of an object up to its closing brace. */
  function ParseMembers(t: string, i: nat, depth: nat): (r: Result<seq<Member>>)
    requires i <= |t|
    ensures r.Ok? ==> i < r.next <= |t|
    decreases |t| - i, 1
  {
    match ParseMember(t, i, depth)
    case Err(e) => Err(e)
    case Ok(m, j) =>
      if At(t, j, ',') then
        match ParseMembers(t, j + 1, depth)
        case Err(e) => Err(e)
        case Ok(ms, n) => Ok([m] + ms, n)
      else if At(t, j, '}') then Ok([m], j + 1)
      else Err(Syntax)
  }

  /** The elements of an array up to its closing bracket. */
  function ParseItems(t: string, i: nat, depth: nat): (r: Result<seq<Value>>)
    requires i <= |t|
    ensures r.Ok? ==> i < r.next <= |t|
    decreases |t| - i, 1
  {
    match ParseValue(t, SkipWs(t, i), depth + 1)
    case Err(e) => Err(e)
    case Ok(v, n) =>
      var j := SkipWs(t, n);
      if At(t, j, ',') then
        match ParseItems(t, j + 1, depth)
        case Err(e) => Err(e)
        case Ok(vs, n) => Ok([v] + vs, n)
      else if At(t, j, ']') then Ok([v], j + 1)
      else Err(Syntax)
  }

  /** jmap_json_parse. */
  function Parse(t: string): Result<Value> {
    match ParseValue(t, SkipWs(t, 0), 1)
    case Err(e) => Err(e)
    case Ok(v, n) => if SkipWs(t, n) == |t| then Ok(v, |t|) else Err(Trailing)
  }

  // ---------------------------------------------------------------------
  // Numbers that are no 64-bit integers
  // ---------------------------------------------------------------------

  /** A number literal by its pieces. */
  datatype Literal = Literal(neg: bool, whole: string, frac: string, mark: string, exp: string)

  function LiteralText(l: Literal): string {
    (if l.neg then "-" else "") + (l.whole + ((if l.frac == "" then "" else "." + l.frac) + (l.mark + l.exp)))
  }

  predicate AllDigits(x: string) {
    forall k :: 0 <= k < |x| ==> '0' <= x[k] <= '9'
  }

  /** RFC 8259, section 6: no leading zeros, digits behind a point and behind an
      exponent mark; and short enough. */
  predicate LiteralForm(l: Literal) {
    && l.whole != "" && AllDigits(l.whole) && (l.whole[0] == '0' ==> |l.whole| == 1)
    && AllDigits(l.frac) && AllDigits(l.exp) && (l.mark == "" <==> l.exp == "")
    && (l.mark == "" || l.mark == "e" || l.mark == "E" || l.mark == "e+" || l.mark == "E+" || l.mark == "e-"
        || l.mark == "E-")
    && |LiteralText(l)| < 64
  }

  /** A literal without fraction and exponent that fits 64 bits. */
  predicate IsInteger(l: Literal) {
    l.frac == "" && l.mark == "" && Int64(Signed(l.neg, Number(l.whole, 0, 0)))
  }

  predicate LiteralOk(l: Literal) {
    LiteralForm(l) && !IsInteger(l)
  }

  /** What a number literal denotes. */
  function LiteralValue(l: Literal): Value {
    if IsInteger(l) then Int(Signed(l.neg, Number(l.whole, 0, 0))) else Real(LiteralText(l))
  }

  ghost predicate RealText(x: string) {
    exists l: Literal :: LiteralText(l) == x && LiteralOk(l)
  }

  // ---------------------------------------------------------------------
  // Printing
  // ---------------------------------------------------------------------

  /** White space of RFC 8259, section 2. */
  predicate Blank(ws: string) {
    forall k :: 0 <= k < |ws| ==> ws[k] == ' ' || ws[k] == '\t' || ws[k] == '\n' || ws[k] == '\r'
  }

  /** The printing of a value with `ws` in every place where white space may stand
      between its tokens. */
  function Print(v: Value, ws: string): string
    decreases v, 1, 0
  {
    match v
    case Null => "null"
    case Bool(b) => if b then "true" else "false"
    case Int(n) => PrintInt(n)
    case Real(x) => x
    case Str(s) => Quote(s)
    case Arr(items) => "[" + (ws + if items == [] then "]" else PrintItems(v, 0, ws))
    case Obj(members) => "{" + (ws + if members == [] then "}" else PrintMembers(v, 0, ws))
  }

  function PrintItems(v: Value, k: nat, ws: string): string
    requires v.Arr? && k < |v.items|
    decreases v, 0, |v.items| - k
  {
    Print(v.items[k], ws) + (ws + if k + 1 < |v.items| then "," + (ws + PrintItems(v, k + 1, ws)) else "]")
  }

  function PrintMembers(v: Value, k: nat, ws: string): string
    requires v.Obj? && k < |v.members|
    decreases v, 0, |v.members| - k
  {
    Quote(v.members[k].key) + (ws + (":" + (ws + Print(v.members[k].value, ws))))
    + (ws + if k + 1 < |v.members| then "," + (ws + PrintMembers(v, k + 1, ws)) else "}")
  }

  /** Strings are valid UTF-8, integers fit 64 bits, other numbers are literals, and
      nesting stays within the limit for a value at depth `d`. */
  ghost predicate Proper(v: Value, d: nat)
    decreases v
  {
    && d <= MAX_DEPTH
    && match v
       case Int(n) => Int64(n)
       case Real(x) => RealText(x)
       case Str(s) => ValidUtf8(s)
       case Arr(items) => forall i :: 0 <= i < |items| ==> Proper(items[i], d + 1)
       case Obj(members) =>
         forall i :: 0 <= i < |members| ==> ValidUtf8(members[i].key) && Proper(members[i].value, d + 1)
       case _ => true
  }

  // ---------------------------------------------------------------------
  // Accepted values are proper
  // ---------------------------------------------------------------------

  lemma {:induction false} DigitsEndDigits(t: string, i: nat)
    requires i <= |t|
    ensures AllDigits(t[i..DigitsEnd(t, i)])
    decreases |t| - i
  {
    if DigitAt(t, i) {
      DigitsEndDigits(t, i + 1);
      assert t[i..DigitsEnd(t, i)] == [t[i]] + t[i + 1..DigitsEnd(t, i + 1)];
    }
  }

  /** Of an accepted number, the integer part. */
  lemma IntegerPart(t: string, s: nat)
    requires s <= |t| && IntegerEnd(t, s).Some?
    ensures var x := t[s..IntegerEnd(t, s).value];
            x != "" && AllDigits(x) && (x[0] == '0' ==> |x| == 1) && Number(t, s, 0) == Number(x, 0, 0)
  {
    var e := IntegerEnd(t, s).value;
    if t[s] != '0' {
      DigitsEndDigits(t, s + 1);
      assert t[s..e] == [t[s]] + t[s + 1..e];
      DigitsEndStops(t, s + 1);
    }
    NumberInside(t, s, e, 0);
  }

  lemma {:induction false} DigitsEndStops(t: string, i: nat)
    requires i <= |t|
    ensures !DigitAt(t, DigitsEnd(t, i))
    decreases |t| - i
  {
    if DigitAt(t, i) { DigitsEndStops(t, i + 1); }
  }

  /** A number that ends at `e` is the number of the text up to there. */
  lemma {:induction false} NumberInside(t: string, i: nat, e: nat, acc: nat)
    requires i <= e <= |t| && AllDigits(t[i..e]) && !DigitAt(t, e)
    ensures Number(t, i, acc) == Number(t[i..e], 0, acc)
    decreases e - i
  {
    if i < e {
      var x := t[i..e];
      assert x[0] == t[i] && x[1..] == t[i + 1..e];
      assert AllDigits(t[i + 1..e]) by { assert forall k :: 0 <= k < |x| - 1 ==> x[1..][k] == x[k + 1]; }
      NumberInside(t, i + 1, e, acc * 10 + (t[i] - '0') as nat);
      NumberShift(x, 1, acc * 10 + (t[i] - '0') as nat);
    }
  }

  lemma {:induction false} NumberShift(x: string, k: nat, acc: nat)
    requires k <= |x|
    ensures Number(x, k, acc) == Number(x[k..], 0, acc)
    decreases |x| - k
  {
    if k < |x| && IsDigit(x[k]) {
      var next := acc * 10 + (x[k] - '0') as nat;
      NumberShift(x, k + 1, next);
      NumberShift(x[k..], 1, next);
      assert x[k..][0] == x[k] && x[k..][1..] == x[k + 1..];
    }
  }

  lemma FractionPart(t: string, i: nat)
    requires i <= |t| && FractionEnd(t, i).Some?
    ensures var e := FractionEnd(t, i).value;
            e == i || (t[i..e] == "." + t[i + 1..e] && t[i + 1..e] != "" && AllDigits(t[i + 1..e]))
  {
    var e := FractionEnd(t, i).value;
    if e != i {
      DigitsEndDigits(t, i + 1);
      assert t[i..e] == "." + t[i + 1..e];
    }
  }

  /** Of an accepted number, the exponent: its mark and its digits. */
  lemma ExponentPart(t: string, i: nat) returns (k: nat)
    requires i <= |t| && ExponentEnd(t, i).Some?
    ensures var e := ExponentEnd(t, i).value;
            && i <= k <= e && t[i..e] == t[i..k] + t[k..e] && AllDigits(t[k..e]) && (k == i <==> k == e)
            && (k == i || t[i..k] == "e" || t[i..k] == "E" || t[i..k] == "e+" || t[i..k] == "E+" || t[i..k] == "e-"
                || t[i..k] == "E-")
  {
    var e := ExponentEnd(t, i).value;
    k := i;
    if i < |t| && (t[i] == 'e' || t[i] == 'E') {
      k := if i + 1 < |t| && (t[i + 1] == '+' || t[i + 1] == '-') then i + 2 else i + 1;
      DigitsEndDigits(t, k);
      if k == i + 2 { assert t[i..k] == [t[i], t[i + 1]]; } else { assert t[i..k] == [t[i]]; }
    }
  }

  lemma NumberIsProper(t: string, i: nat, d: nat)
    requires i < |t| && ParseNumber(t, i).Ok? && d <= MAX_DEPTH
    ensures Proper(ParseNumber(t, i).value, d)
  {
    hide IntegerEnd, FractionEnd, ExponentEnd, Number, RealText;
    if ParseNumber(t, i).value.Real? {
      var l := NumberIsLiteral(t, i);
      LiteralIsText(l);
    }
  }

  lemma LiteralIsText(l: Literal)
    requires LiteralOk(l)
    ensures RealText(LiteralText(l))
  {
  }

  /** Every accepted number is a literal and has its value. */
  lemma NumberIsLiteral(t: string, i: nat) returns (l: Literal)
    requires i < |t| && ParseNumber(t, i).Ok?
    ensures var r := ParseNumber(t, i);
            LiteralForm(l) && t[i..r.next] == LiteralText(l) && r.value == LiteralValue(l)
  {
    hide IntegerEnd, FractionEnd, ExponentEnd, Number, AllDigits;
    var s := if t[i] == '-' then i + 1 else i;
    var e1 := IntegerEnd(t, s).value;
    var e2 := FractionEnd(t, e1).value;
    var e3 := ExponentEnd(t, e2).value;
    IntegerPart(t, s);
    FractionPart(t, e1);
    var k := ExponentPart(t, e2);
    NoDigits();
    l := Literal(t[i] == '-', t[s..e1], if e1 == e2 then "" else t[e1 + 1..e2], t[e2..k], t[k..e3]);
    LiteralPieces(t, i, s, e1, e2, e3);
    assert LiteralText(l) == t[i..e3];
    hide LiteralText;
    assert e3 - i < 64;
    assert e3 == e1 <==> l.frac == "" && l.mark == "";
  }

  lemma NoDigits()
    ensures AllDigits("")
  {
  }

  lemma LiteralPieces(t: string, i: nat, s: nat, e1: nat, e2: nat, e3: nat)
    requires i <= s <= e1 <= e2 <= e3 <= |t| && (s == i + 1 || s == i)
    ensures t[i..e3] == (if s == i then "" else [t[i]]) + (t[s..e1] + (t[e1..e2] + t[e2..e3]))
  {
  }

  /** Every accepted value holds valid strings only, integers of 64 bits and number
      literals only, and no deeper nesting than the limit. */
  lemma {:induction false} ParsedIsProper(t: string, i: nat, d: nat)
    requires ParseValue(t, i, d).Ok?
    ensures Proper(ParseValue(t, i, d).value, d)
    decreases |t| - i, 0
  {
    hide ParseNumber, RealText;
    if t[i] == '{' {
      var j := SkipWs(t, i + 1);
      if !At(t, j, '}') { MembersAreProper(t, j, d); }
    } else if t[i] == '[' {
      var j := SkipWs(t, i + 1);
      if !At(t, j, ']') { ItemsAreProper(t, j, d); }
    } else if t[i] == '"' {
      AcceptedStringIsValid(t, i);
    } else if t[i] == '-' || IsDigit(t[i]) {
      NumberIsProper(t, i, d);
    }
  }

  lemma {:induction false} MembersAreProper(t: string, i: nat, d: nat)
    requires i <= |t| && ParseMembers(t, i, d).Ok?
    ensures var ms := ParseMembers(t, i, d).value;
            forall k :: 0 <= k < |ms| ==> ValidUtf8(ms[k].key) && Proper(ms[k].value, d + 1)
    decreases |t| - i, 1
  {
    hide Proper, ValidUtf8, SkipWs, ParseValue, ParseString;
    var m := ParseMember(t, i, d);
    MemberIsProper(t, i, d);
    hide ParseMember;
    if At(t, m.next, ',') {
      MembersAreProper(t, m.next + 1, d);
    }
  }

  lemma {:induction false} MemberIsProper(t: string, i: nat, d: nat)
    requires i <= |t| && ParseMember(t, i, d).Ok?
    ensures var m := ParseMember(t, i, d).value;
            ValidUtf8(m.key) && Proper(m.value, d + 1)
    decreases |t| - i, 0
  {
    hide Proper, ValidUtf8, SkipWs, ParseValue, ParseString;
    var s := SkipWs(t, i);
    AcceptedStringIsValid(t, s);
    ParsedIsProper(t, SkipWs(t, SkipWs(t, ParseString(t, s).next) + 1), d + 1);
  }

  lemma {:induction false} ItemsAreProper(t: string, i: nat, d: nat)
    requires i <= |t| && ParseItems(t, i, d).Ok?
    ensures var vs := ParseItems(t, i, d).value;
            forall k :: 0 <= k < |vs| ==> Proper(vs[k], d + 1)
    decreases |t| - i, 1
  {
    ParsedIsProper(t, SkipWs(t, i), d + 1);
    var j := SkipWs(t, ParseValue(t, SkipWs(t, i), d + 1).next);
    hide Proper, SkipWs;
    if At(t, j, ',') {
      ItemsAreProper(t, j + 1, d);
    }
  }

  // ---------------------------------------------------------------------
  // Numbers round trip
  // ---------------------------------------------------------------------

  /** What may follow a value. */
  ghost predicate Stop(t: string, j: nat) {
    || j == |t|
    || (j < |t| && (t[j] == ',' || t[j] == ']' || t[j] == '}' || t[j] == ' ' || t[j] == '\t' || t[j] == '\n'
                    || t[j] == '\r'))
  }

  lemma {:induction false} FirstDigit(n: nat)
    ensures Digits(n)[0] == '0' <==> n == 0
    ensures n == 0 ==> |Digits(n)| == 1
  {
    if n >= 10 { FirstDigit(n / 10); }
  }

  /** Digits without a leading zero, followed by no digit, are one integer part. */
  lemma IntegerReads(t: string, s: nat, x: string)
    requires x != "" && AllDigits(x) && (x[0] == '0' ==> |x| == 1) && TextAt(t, s, x) && !DigitAt(t, s + |x|)
    ensures IntegerEnd(t, s) == Some(s + |x|) && Number(t, s, 0) == Number(x, 0, 0)
  {
    TextAtSlice(t, s, x);
    NumberInside(t, s, s + |x|, 0);
    DigitsStand(t, s, x);
    assert t[s] == t[s..s + |x|][0];
    hide Number, TextAt, AllDigits;
    if x[0] != '0' { RunOfDigits(t, s + 1, |x| - 1); }
  }

  lemma {:induction false} DigitsAreDigits(n: nat)
    ensures AllDigits(Digits(n)) && Number(Digits(n), 0, 0) == n
  {
    TextAtSelf(Digits(n));
    ReadDigits(Digits(n), 0, n);
    OnlyDigits(n);
  }

  lemma {:induction false} OnlyDigits(n: nat)
    ensures AllDigits(Digits(n))
  {
    if n >= 10 { OnlyDigits(n / 10); }
  }

  /** A fraction is read, or none where there is none. */
  lemma FractionReads(t: string, i: nat, frac: string)
    requires AllDigits(frac) && TextAt(t, i, if frac == "" then "" else "." + frac) && i <= |t|
    requires var e := i + if frac == "" then 0 else 1 + |frac|;
             !DigitAt(t, e) && !At(t, e, '.')
    ensures FractionEnd(t, i) == Some(i + if frac == "" then 0 else 1 + |frac|)
  {
    hide TextAt, DigitsEnd;
    if frac != "" {
      TextAtJoin(t, i, ".", frac);
      TextAtHead(t, i, ".");
      DigitsStand(t, i + 1, frac);
      RunOfDigits(t, i + 1, |frac|);
    }
  }

  lemma DigitsStand(t: string, i: nat, x: string)
    requires AllDigits(x) && TextAt(t, i, x)
    ensures i + |x| <= |t| && forall k :: i <= k < i + |x| ==> IsDigit(t[k])
  {
    TextAtSlice(t, i, x);
    forall k | i <= k < i + |x| ensures IsDigit(t[k]) {
      assert t[i..i + |x|][k - i] == x[k - i];
    }
  }

  lemma ExponentReads(t: string, i: nat, mark: string, exp: string)
    requires AllDigits(exp) && (mark == "" <==> exp == "") && TextAt(t, i, mark) && TextAt(t, i + |mark|, exp)
    requires mark == "" || mark == "e" || mark == "E" || mark == "e+" || mark == "E+" || mark == "e-" || mark == "E-"
    requires Stop(t, i + |mark| + |exp|) && i <= |t|
    ensures ExponentEnd(t, i) == Some(i + |mark| + |exp|)
  {
    hide TextAt, DigitsEnd;
    DigitsStand(t, i + |mark|, exp);
    if mark != "" {
      var k := i + |mark|;
      TextAtSlice(t, i, mark);
      assert t[i] == t[i..k][0] && (|mark| == 2 ==> t[i + 1] == t[i..k][1]);
      RunOfDigits(t, k, |exp|);
    }
  }

  /** What stands behind the integer part of a literal is no digit, and no point but
      that of its fraction. */
  lemma BehindPart(t: string, j: nat, rest: string)
    requires TextAt(t, j, rest) && Stop(t, j + |rest|)
    requires rest == "" || rest[0] == '.' || rest[0] == 'e' || rest[0] == 'E'
    ensures !DigitAt(t, j) && (At(t, j, '.') ==> rest != "" && rest[0] == '.')
  {
    if rest != "" { TextAtHead(t, j, rest); }
  }

  /** A number literal is read as its value. */
  lemma NumberParses(t: string, i: nat, l: Literal)
    requires LiteralForm(l) && TextAt(t, i, LiteralText(l)) && Stop(t, i + |LiteralText(l)|)
    ensures i < |t| && (t[i] == '-' || IsDigit(t[i]))
    ensures ParseNumber(t, i) == Ok(LiteralValue(l), i + |LiteralText(l)|)
  {
    hide TextAt, IntegerEnd, FractionEnd, ExponentEnd, Number, AllDigits, LiteralText, ParseNumber, Stop, DigitAt, At;
    var s := i + |SignPart(l)|;
    var e1 := s + |l.whole|;
    var e2 := e1 + |FracPart(l)|;
    LiteralStands(t, i, l);
    IntegerReads(t, s, l.whole);
    FractionReads(t, e1, l.frac);
    ExponentReads(t, e2, l.mark, l.exp);
    NumberReads(t, i, s, e1, e2, l);
  }

  /** A literal that is no 64-bit integer is read back as it is. */
  lemma RealParses(t: string, i: nat, l: Literal)
    requires LiteralOk(l) && TextAt(t, i, LiteralText(l)) && Stop(t, i + |LiteralText(l)|)
    ensures i < |t| && (t[i] == '-' || IsDigit(t[i]))
    ensures ParseNumber(t, i) == Ok(Real(LiteralText(l)), i + |LiteralText(l)|)
  {
    NumberParses(t, i, l);
  }

  lemma IntParses(t: string, i: nat, n: int)
    requires Int64(n) && TextAt(t, i, PrintInt(n)) && Stop(t, i + |PrintInt(n)|)
    ensures i < |t| && (t[i] == '-' || IsDigit(t[i])) && ParseNumber(t, i) == Ok(Int(n), i + |PrintInt(n)|)
  {
    hide TextAt, Number, Digits, AllDigits, ParseNumber, Stop;
    var m := if n < 0 then -n else n;
    NineteenDigits(m);
    DigitsAreDigits(m);
    FirstDigit(m);
    NoDigits();
    var l := Literal(n < 0, Digits(m), "", "", "");
    assert LiteralText(l) == PrintInt(n);
    NumberParses(t, i, l);
  }

  function SignPart(l: Literal): string {
    if l.neg then "-" else ""
  }

  function FracPart(l: Literal): string {
    if l.frac == "" then "" else "." + l.frac
  }

  /** Where the pieces of a literal stand, and what is not behind them. */
  lemma LiteralStands(t: string, i: nat, l: Literal)
    requires LiteralForm(l) && TextAt(t, i, LiteralText(l)) && Stop(t, i + |LiteralText(l)|)
    ensures var s := i + |SignPart(l)|;
            var e1 := s + |l.whole|;
            var e2 := e1 + |FracPart(l)|;
            && e2 + |l.mark| + |l.exp| == i + |LiteralText(l)| <= |t| && t[i..i + |LiteralText(l)|] == LiteralText(l)
            && TextAt(t, s, l.whole) && TextAt(t, e1, FracPart(l)) && TextAt(t, e2, l.mark)
            && TextAt(t, e2 + |l.mark|, l.exp)
            && !DigitAt(t, e1) && !DigitAt(t, e2) && !At(t, e2, '.')
            && t[s] == l.whole[0] && (l.neg ==> t[i] == '-')
  {
    hide TextAt, Stop, AllDigits;
    var sign, fr := SignPart(l), FracPart(l);
    var s := i + |sign|;
    var e1 := s + |l.whole|;
    var e2 := e1 + |fr|;
    assert LiteralText(l) == sign + (l.whole + (fr + (l.mark + l.exp)));
    TextAtSlice(t, i, LiteralText(l));
    TextAtJoin(t, i, sign, l.whole + (fr + (l.mark + l.exp)));
    TextAtJoin(t, s, l.whole, fr + (l.mark + l.exp));
    TextAtJoin(t, e1, fr, l.mark + l.exp);
    TextAtJoin(t, e2, l.mark, l.exp);
    BehindPart(t, e1, fr + (l.mark + l.exp));
    BehindPart(t, e2, l.mark + l.exp);
    TextAtHead(t, s, l.whole);
    if l.neg { TextAtHead(t, i, "-"); }
  }

  /** A number of which the parts are read is read. */
  lemma NumberReads(t: string, i: nat, s: nat, e1: nat, e2: nat, l: Literal)
    requires LiteralForm(l) && s == i + |SignPart(l)| && e1 == s + |l.whole| && e2 == e1 + |FracPart(l)|
    requires e2 + |l.mark| + |l.exp| == i + |LiteralText(l)| <= |t| && t[i..i + |LiteralText(l)|] == LiteralText(l)
    requires s < |t| && t[s] == l.whole[0] && (l.neg ==> t[i] == '-')
    requires IntegerEnd(t, s) == Some(e1) && Number(t, s, 0) == Number(l.whole, 0, 0)
    requires FractionEnd(t, e1) == Some(e2) && ExponentEnd(t, e2) == Some(e2 + |l.mark| + |l.exp|)
    ensures (t[i] == '-' || IsDigit(t[i])) && ParseNumber(t, i) == Ok(LiteralValue(l), i + |LiteralText(l)|)
  {
    hide IntegerEnd, FractionEnd, ExponentEnd, Number;
    assert '0' <= l.whole[0] <= '9';
    hide LiteralText;
  }

  // ---------------------------------------------------------------------
  // Values round trip
  // ---------------------------------------------------------------------

  /** Printings begin with a character that is no space. */
  lemma PrintStarts(v: Value, ws: string)
    requires v.Real? ==> RealText(v.text)
    ensures Print(v, ws) != "" && !Space(Print(v, ws)[0])
    ensures Print(v, ws)[0] != ']' && Print(v, ws)[0] != '}'
  {
    if v.Real? {
      var l: Literal :| LiteralText(l) == v.text && LiteralOk(l);
      assert v.text[0] == if l.neg then '-' else l.whole[0];
    }
  }

  /** White space is skipped up to what follows it. */
  lemma {:induction false} Skips(t: string, i: nat, ws: string, x: string)
    requires Blank(ws) && TextAt(t, i, ws) && TextAt(t, i + |ws|, x) && x != "" && !Space(x[0])
    ensures SkipWs(t, i) == i + |ws| && i + |ws| < |t| && t[i + |ws|] == x[0]
    decreases ws
  {
    TextAtHead(t, i + |ws|, x);
    if ws != "" {
      TextAtHead(t, i, ws);
      TextAtJoin(t, i, [ws[0]], ws[1..]);
      HeadTail(ws);
      Skips(t, i + 1, ws[1..], x);
    }
  }

  /** White space at the end of the text. */
  lemma {:induction false} SkipsToEnd(t: string, i: nat, ws: string)
    requires Blank(ws) && TextAt(t, i, ws) && i + |ws| == |t|
    ensures SkipWs(t, i) == |t|
    decreases ws
  {
    if ws != "" {
      TextAtHead(t, i, ws);
      TextAtJoin(t, i, [ws[0]], ws[1..]);
      HeadTail(ws);
      SkipsToEnd(t, i + 1, ws[1..]);
    }
  }

  /** A value may stop where white space and one of these follow. */
  lemma StopsBefore(t: string, j: nat, ws: string, x: string)
    requires Blank(ws) && TextAt(t, j, ws + x) && x != "" && (x[0] == ',' || x[0] == ']' || x[0] == '}')
    ensures Stop(t, j)
  {
    TextAtHead(t, j, ws + x);
  }

  lemma LiteralParses(t: string, i: nat, word: string, v: Value)
    requires TextAt(t, i, word) && word != ""
    ensures i < |t| && t[i] == word[0] && ParseLiteral(t, i, word, v) == Ok(v, i + |word|)
  {
    assert t[i + 0] == word[0];
    assert t[i..i + |word|] == word;
  }

  lemma StringParses(t: string, i: nat, s: string, d: nat)
    requires d <= MAX_DEPTH && ValidUtf8(s) && TextAt(t, i, Quote(s))
    ensures ParseValue(t, i, d) == Ok(Str(s), i + |Quote(s)|)
  {
    TextAtHead(t, i, Quote(s));
    QuotedParses(t, i, s);
    hide ParseString, Quote, TextAt;
  }

  /** A value's printing, wherever it stands, is read back as that value. */
  lemma {:induction false} PrintedParses(t: string, i: nat, v: Value, d: nat, ws: string)
    requires Proper(v, d) && Blank(ws) && TextAt(t, i, Print(v, ws)) && Stop(t, i + |Print(v, ws)|)
    ensures ParseValue(t, i, d) == Ok(v, i + |Print(v, ws)|)
    decreases v, 1, 0
  {
    hide Stop, TextAt, ParseNumber;
    match v
    case Null => LiteralParses(t, i, "null", Null);
    case Bool(b) => LiteralParses(t, i, if b then "true" else "false", v);
    case Int(n) => IntParses(t, i, n);
    case Real(x) =>
      var l: Literal :| LiteralText(l) == x && LiteralOk(l);
      RealParses(t, i, l);
    case Str(s) => StringParses(t, i, s, d);
    case Arr(items) => ArrayParses(t, i, v, d, ws);
    case Obj(members) => ObjectParses(t, i, v, d, ws);
  }

  lemma PrintArr(v: Value, ws: string)
    requires v.Arr?
    ensures Print(v, ws) == "[" + (ws + if v.items == [] then "]" else PrintItems(v, 0, ws))
  {
  }

  lemma PrintObj(v: Value, ws: string)
    requires v.Obj?
    ensures Print(v, ws) == "{" + (ws + if v.members == [] then "}" else PrintMembers(v, 0, ws))
  {
  }

  lemma ProperDepth(v: Value, d: nat)
    requires Proper(v, d)
    ensures d <= MAX_DEPTH
  {
  }

  lemma ArrayOpens(t: string, i: nat, d: nat, j: nat, vs: seq<Value>, n: nat)
    requires d <= MAX_DEPTH && At(t, i, '[') && SkipWs(t, i + 1) == j <= |t| && !At(t, j, ']')
    requires ParseItems(t, j, d) == Ok(vs, n)
    ensures ParseValue(t, i, d) == Ok(Arr(vs), n)
  {
    hide ParseItems, SkipWs;
  }

  lemma EmptyArrayParses(t: string, i: nat, d: nat, ws: string)
    requires d <= MAX_DEPTH && Blank(ws) && TextAt(t, i, "[" + (ws + "]"))
    ensures ParseValue(t, i, d) == Ok(Arr([]), i + |ws| + 2)
  {
    hide TextAt, SkipWs, ParseItems;
    TextAtJoin(t, i, "[", ws + "]");
    TextAtJoin(t, i + 1, ws, "]");
    TextAtHead(t, i, "[");
    Skips(t, i + 1, ws, "]");
  }

  lemma {:induction false} ArrayParses(t: string, i: nat, v: Value, d: nat, ws: string)
    requires v.Arr? && Proper(v, d) && Blank(ws) && TextAt(t, i, Print(v, ws))
    ensures ParseValue(t, i, d) == Ok(v, i + |Print(v, ws)|)
    decreases v, 0, |v.items| + 1
  {
    hide TextAt, ParseValue, ParseItems, SkipWs, RealText, Blank, Proper, Print, PrintItems;
    PrintArr(v, ws);
    ProperDepth(v, d);
    if v.items == [] {
      EmptyArrayParses(t, i, d, ws);
    } else {
      var x := PrintItems(v, 0, ws);
      TextAtJoin(t, i, "[", ws + x);
      TextAtJoin(t, i + 1, ws, x);
      TextAtHead(t, i, "[");
      ItemsStart(v, 0, d, ws);
      Skips(t, i + 1, ws, x);
      ItemsParse(t, i + 1 + |ws|, v, 0, d, ws);
      assert v.items[0..] == v.items;
      ArrayOpens(t, i, d, i + 1 + |ws|, v.items, i + 1 + |ws| + |x|);
    }
  }

  lemma ProperItem(v: Value, k: nat, d: nat)
    requires v.Arr? && k < |v.items| && Proper(v, d)
    ensures Proper(v.items[k], d + 1) && (v.items[k].Real? ==> RealText(v.items[k].text))
  {
    assert Proper(v.items[k], d + 1);
  }

  lemma LastItem(t: string, i: nat, d: nat, x: Value, n: nat, j: nat)
    requires i <= n <= j < |t| && SkipWs(t, i) == i && SkipWs(t, n) == j && At(t, j, ']')
    requires ParseValue(t, i, d + 1) == Ok(x, n)
    ensures ParseItems(t, i, d) == Ok([x], j + 1)
  {
    hide ParseValue, SkipWs;
  }

  lemma NextItem(t: string, i: nat, d: nat, x: Value, n: nat, j: nat, xs: seq<Value>, m: nat)
    requires i <= n <= j < |t| && SkipWs(t, i) == i && SkipWs(t, n) == j && At(t, j, ',')
    requires ParseValue(t, i, d + 1) == Ok(x, n) && ParseItems(t, j + 1, d) == Ok(xs, m)
    ensures ParseItems(t, i, d) == Ok([x] + xs, m)
  {
    hide ParseValue, SkipWs;
  }

  /** White space in front of the elements does not matter. */
  lemma ItemsSkip(t: string, i: nat, d: nat)
    requires i <= |t| && SkipWs(t, SkipWs(t, i)) == SkipWs(t, i)
    ensures ParseItems(t, i, d) == ParseItems(t, SkipWs(t, i), d)
  {
    hide ParseValue, SkipWs;
  }

  lemma {:induction false} ItemsParse(t: string, i: nat, v: Value, k: nat, d: nat, ws: string)
    requires v.Arr? && k < |v.items| && Proper(v, d) && Blank(ws) && TextAt(t, i, PrintItems(v, k, ws))
    ensures i <= |t| && SkipWs(t, i) == i
    ensures ParseItems(t, i, d) == Ok(v.items[k..], i + |PrintItems(v, k, ws)|)
    decreases v, 0, |v.items| - k
  {
    hide TextAt, Print, ParseValue, SkipWs, Proper, ParseItems, Blank, RealText, Stop;
    var x := v.items[k];
    var next := if k + 1 < |v.items| then "," + (ws + PrintItems(v, k + 1, ws)) else "]";
    var p := Print(x, ws);
    assert PrintItems(v, k, ws) == p + (ws + next);
    hide PrintItems;
    ProperItem(v, k, d);
    TextAtJoin(t, i, p, ws + next);
    TextAtJoin(t, i + |p|, ws, next);
    PrintStarts(x, ws);
    NoSpace(t, i, p);
    var n, j := i + |p|, i + |p| + |ws|;
    StopsBefore(t, n, ws, next);
    PrintedParses(t, i, x, d + 1, ws);
    Skips(t, n, ws, next);
    if k + 1 < |v.items| {
      var more := PrintItems(v, k + 1, ws);
      TextAtJoin(t, j, ",", ws + more);
      TextAtJoin(t, j + 1, ws, more);
      ItemsParse(t, j + 1 + |ws|, v, k + 1, d, ws);
      ItemsStart(v, k + 1, d, ws);
      Skips(t, j + 1, ws, more);
      ItemsSkip(t, j + 1, d);
      NextItem(t, i, d, x, n, j, v.items[k + 1..], j + 1 + |ws| + |more|);
      assert v.items[k..] == [x] + v.items[k + 1..];
    } else {
      LastItem(t, i, d, x, n, j);
      assert v.items[k..] == [x];
    }
  }

  lemma ItemsStart(v: Value, k: nat, d: nat, ws: string)
    requires v.Arr? && k < |v.items| && Proper(v, d)
    ensures PrintItems(v, k, ws) != "" && !Space(PrintItems(v, k, ws)[0]) && PrintItems(v, k, ws)[0] != ']'
  {
    hide Print, Proper, RealText;
    ProperItem(v, k, d);
    PrintStarts(v.items[k], ws);
  }

  lemma NoSpace(t: string, i: nat, x: string)
    requires TextAt(t, i, x) && x != "" && !Space(x[0])
    ensures SkipWs(t, i) == i && i < |t| && t[i] == x[0]
  {
    TextAtHead(t, i, x);
  }

  lemma ObjectOpens(t: string, i: nat, d: nat, j: nat, ms: seq<Member>, n: nat)
    requires d <= MAX_DEPTH && At(t, i, '{') && SkipWs(t, i + 1) == j <= |t| && !At(t, j, '}')
    requires ParseMembers(t, j, d) == Ok(ms, n)
    ensures ParseValue(t, i, d) == Ok(Obj(ms), n)
  {
    hide ParseMembers, SkipWs;
  }

  lemma EmptyObjectParses(t: string, i: nat, d: nat, ws: string)
    requires d <= MAX_DEPTH && Blank(ws) && TextAt(t, i, "{" + (ws + "}"))
    ensures ParseValue(t, i, d) == Ok(Obj([]), i + |ws| + 2)
  {
    hide TextAt, SkipWs, ParseMembers;
    TextAtJoin(t, i, "{", ws + "}");
    TextAtJoin(t, i + 1, ws, "}");
    TextAtHead(t, i, "{");
    Skips(t, i + 1, ws, "}");
  }

  lemma {:induction false} ObjectParses(t: string, i: nat, v: Value, d: nat, ws: string)
    requires v.Obj? && Proper(v, d) && Blank(ws) && TextAt(t, i, Print(v, ws))
    ensures ParseValue(t, i, d) == Ok(v, i + |Print(v, ws)|)
    decreases v, 0, |v.members| + 1
  {
    hide TextAt, ParseValue, ParseMembers, SkipWs, RealText, Blank, Proper, Print, PrintMembers, Quote;
    PrintObj(v, ws);
    ProperDepth(v, d);
    if v.members == [] {
      EmptyObjectParses(t, i, d, ws);
    } else {
      var x := PrintMembers(v, 0, ws);
      TextAtJoin(t, i, "{", ws + x);
      TextAtJoin(t, i + 1, ws, x);
      TextAtHead(t, i, "{");
      MembersStart(v, 0, ws);
      Skips(t, i + 1, ws, x);
      MembersParse(t, i + 1 + |ws|, v, 0, d, ws);
      assert v.members[0..] == v.members;
      ObjectOpens(t, i, d, i + 1 + |ws|, v.members, i + 1 + |ws| + |x|);
    }
  }

  lemma ProperMember(v: Value, k: nat, d: nat)
    requires v.Obj? && k < |v.members| && Proper(v, d)
    ensures var m := v.members[k];
            ValidUtf8(m.key) && Proper(m.value, d + 1) && (m.value.Real? ==> RealText(m.value.text))
  {
    assert Proper(v.members[k].value, d + 1);
  }

  function PrintMember(m: Member, ws: string): string
    decreases m, 2, 0
  {
    Quote(m.key) + (ws + (":" + (ws + Print(m.value, ws))))
  }

  lemma MemberSteps(t: string, i: nat, d: nat, m: Member, j: nat, c: nat, k: nat, n: nat, e: nat)
    requires i <= j <= c < k <= |t| && SkipWs(t, i) == i && ParseString(t, i) == Ok(m.key, j)
    requires SkipWs(t, j) == c && At(t, c, ':') && SkipWs(t, c + 1) == k
    requires ParseValue(t, k, d + 1) == Ok(m.value, n) && SkipWs(t, n) == e
    ensures ParseMember(t, i, d) == Ok(m, e)
  {
    hide ParseValue, SkipWs, ParseString;
  }

  lemma KeyParses(t: string, i: nat, key: string, ws: string)
    requires ValidUtf8(key) && Blank(ws) && TextAt(t, i, Quote(key)) && TextAt(t, i + |Quote(key)|, ws)
    requires TextAt(t, i + |Quote(key)| + |ws|, ":")
    ensures var j := i + |Quote(key)|;
            && SkipWs(t, i) == i && ParseString(t, i) == Ok(key, j)
            && SkipWs(t, j) == j + |ws| && At(t, j + |ws|, ':')
  {
    hide TextAt, ParseString, SkipWs;
    NoSpace(t, i, Quote(key));
    QuotedParses(t, i, key);
    Skips(t, i + |Quote(key)|, ws, ":");
  }

  /** A member and the white space behind it, before `next`. */
  lemma {:induction false} MemberParses(t: string, i: nat, v: Value, k: nat, d: nat, ws: string, next: string)
    requires v.Obj? && k < |v.members| && Proper(v, d) && Blank(ws)
    requires next != "" && (next[0] == ',' || next[0] == '}')
    requires TextAt(t, i, PrintMember(v.members[k], ws) + (ws + next))
    ensures i <= |t| && SkipWs(t, i) == i
    ensures ParseMember(t, i, d) == Ok(v.members[k], i + |PrintMember(v.members[k], ws)| + |ws|)
    ensures At(t, i + |PrintMember(v.members[k], ws)| + |ws|, next[0])
    decreases v, 0, 0
  {
    hide TextAt, Print, ParseValue, ParseString, SkipWs, Proper, ParseMember, Quote, Blank, RealText, Stop;
    var m := v.members[k];
    ProperMember(v, k, d);
    var q, p := Quote(m.key), Print(m.value, ws);
    TextAtJoin(t, i, PrintMember(m, ws), ws + next);
    assert PrintMember(m, ws) == q + (ws + (":" + (ws + p)));
    hide PrintMember;
    var j := i + |q|;
    var c := j + |ws|;
    var s := c + 1 + |ws|;
    var e := s + |p|;
    TextAtJoin(t, i, q, ws + (":" + (ws + p)));
    TextAtJoin(t, j, ws, ":" + (ws + p));
    TextAtJoin(t, c, ":", ws + p);
    TextAtJoin(t, c + 1, ws, p);
    TextAtJoin(t, e, ws, next);
    KeyParses(t, i, m.key, ws);
    PrintStarts(m.value, ws);
    Skips(t, c + 1, ws, p);
    StopsBefore(t, e, ws, next);
    PrintedParses(t, s, m.value, d + 1, ws);
    Skips(t, e, ws, next);
    MemberSteps(t, i, d, m, j, c, s, e, e + |ws|);
  }

  lemma LastMember(t: string, i: nat, d: nat, m: Member, j: nat)
    requires i <= |t| && ParseMember(t, i, d) == Ok(m, j) && At(t, j, '}')
    ensures ParseMembers(t, i, d) == Ok([m], j + 1)
  {
    hide ParseMember;
  }

  lemma NextMember(t: string, i: nat, d: nat, m: Member, j: nat, ms: seq<Member>, n: nat)
    requires i <= |t| && ParseMember(t, i, d) == Ok(m, j) && At(t, j, ',')
    requires ParseMembers(t, j + 1, d) == Ok(ms, n)
    ensures ParseMembers(t, i, d) == Ok([m] + ms, n)
  {
    hide ParseMember;
  }

  lemma MembersSkip(t: string, i: nat, d: nat)
    requires i <= |t| && SkipWs(t, SkipWs(t, i)) == SkipWs(t, i)
    ensures ParseMembers(t, i, d) == ParseMembers(t, SkipWs(t, i), d)
  {
    hide ParseMember, SkipWs;
    MemberSkips(t, i, d);
  }

  lemma MemberSkips(t: string, i: nat, d: nat)
    requires i <= |t| && SkipWs(t, SkipWs(t, i)) == SkipWs(t, i)
    ensures ParseMember(t, i, d) == ParseMember(t, SkipWs(t, i), d)
  {
    hide ParseValue, ParseString, SkipWs;
  }

  lemma {:induction false} MembersParse(t: string, i: nat, v: Value, k: nat, d: nat, ws: string)
    requires v.Obj? && k < |v.members| && Proper(v, d) && Blank(ws) && TextAt(t, i, PrintMembers(v, k, ws))
    ensures i <= |t| && SkipWs(t, i) == i
    ensures ParseMembers(t, i, d) == Ok(v.members[k..], i + |PrintMembers(v, k, ws)|)
    decreases v, 0, |v.members| - k
  {
    hide TextAt, Print, ParseMember, ParseMembers, SkipWs, Proper, Quote, Blank;
    var m := v.members[k];
    var next := if k + 1 < |v.members| then "," + (ws + PrintMembers(v, k + 1, ws)) else "}";
    var p := PrintMember(m, ws);
    assert PrintMembers(v, k, ws) == p + (ws + next);
    hide PrintMembers, PrintMember;
    MemberParses(t, i, v, k, d, ws, next);
    var j := i + |p| + |ws|;
    if k + 1 < |v.members| {
      var more := PrintMembers(v, k + 1, ws);
      TextAtJoin(t, i, p, ws + next);
      TextAtJoin(t, i + |p|, ws, next);
      TextAtJoin(t, j, ",", ws + more);
      TextAtJoin(t, j + 1, ws, more);
      MembersParse(t, j + 1 + |ws|, v, k + 1, d, ws);
      MembersStart(v, k + 1, ws);
      Skips(t, j + 1, ws, more);
      MembersSkip(t, j + 1, d);
      NextMember(t, i, d, m, j, v.members[k + 1..], j + 1 + |ws| + |more|);
      assert v.members[k..] == [m] + v.members[k + 1..];
    } else {
      LastMember(t, i, d, m, j);
      assert v.members[k..] == [m];
    }
  }

  lemma MembersStart(v: Value, k: nat, ws: string)
    requires v.Obj? && k < |v.members|
    ensures PrintMembers(v, k, ws) != "" && PrintMembers(v, k, ws)[0] == '"'
  {
    hide Print;
  }

  /** Parsing any printing of any value gives that value back, whatever white space
      stands around it and between its tokens. */
  lemma PrintParse(v: Value, ws: string)
    requires Proper(v, 1) && Blank(ws)
    ensures var t := ws + (Print(v, ws) + ws);
            Parse(t) == Ok(v, |t|)
  {
    hide ParseValue, Print, SkipWs, TextAt, RealText, Stop;
    var p := Print(v, ws);
    var t := ws + (p + ws);
    TextAtSelf(t);
    TextAtJoin(t, 0, ws, p + ws);
    TextAtJoin(t, |ws|, p, ws);
    ProperReal(v);
    PrintStarts(v, ws);
    Skips(t, 0, ws, p);
    SkipsToEnd(t, |ws| + |p|, ws);
    StopsAtEnd(t, |ws| + |p|, ws);
    PrintedParses(t, |ws|, v, 1, ws);
  }

  lemma ProperReal(v: Value)
    requires Proper(v, 1)
    ensures v.Real? ==> RealText(v.text)
  {
  }

  lemma StopsAtEnd(t: string, j: nat, ws: string)
    requires Blank(ws) && TextAt(t, j, ws) && j + |ws| == |t|
    ensures Stop(t, j)
  {
    if ws != "" { TextAtHead(t, j, ws); }
  }

  /** So parsing, printing and parsing again changes nothing: every accepted text
      has a value that its printings are read back as. */
  lemma ParsePrintParse(t: string, ws: string)
    requires Parse(t).Ok? && Blank(ws)
    ensures var v := Parse(t).value;
            var p := ws + (Print(v, ws) + ws);
            Parse(p) == Ok(v, |p|)
  {
    ParsedIsProper(t, SkipWs(t, 0), 1);
    hide ParseValue, Print, Proper;
    PrintParse(Parse(t).value, ws);
  }
}
