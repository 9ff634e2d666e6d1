/** String literals of the JMAP JSON reader: escapes, surrogate pairs and UTF-8.
    Text is a sequence of bytes, each kept as a character below 256. */
module JsonText {
  import opened Common

  datatype Error = Syntax | BadString | BadSurrogate | BadUtf8 | BadNumber | TooDeep | Trailing

  datatype Result<+T> = Ok(value: T, next: nat) | Err(error: Error)

  // ---------------------------------------------------------------------
  // Code points and their encoding
  // ---------------------------------------------------------------------

  /** A Unicode scalar value other than NUL. */
  predicate Scalar(cp: int) {
    0 < cp < 0xD800 || 0xE000 <= cp < 0x110000
  }

  /** utf8_encode. */
  function Enc(cp: int): (r: string)
    requires 0 <= cp < 0x110000
    ensures 1 <= |r| <= 4
  {
    if cp < 0x80 then [cp as char]
    else if cp < 0x800 then [(0xC0 + cp / 64) as char, (0x80 + cp % 64) as char]
    else if cp < 0x10000 then
      [(0xE0 + cp / 4096) as char, (0x80 + cp / 64 % 64) as char, (0x80 + cp % 64) as char]
    else
      [(0xF0 + cp / 262144) as char, (0x80 + cp / 4096 % 64) as char,
       (0x80 + cp / 64 % 64) as char, (0x80 + cp % 64) as char]
  }

  ghost predicate Scalars(cps: seq<int>) {
    forall i :: 0 <= i < |cps| ==> Scalar(cps[i])
  }

  function Utf8(cps: seq<int>): string
    requires Scalars(cps)
  {
    if cps == [] then "" else Enc(cps[0]) + Utf8(cps[1..])
  }

  /** Valid UTF-8 without NUL. */
  ghost predicate ValidUtf8(s: string) {
    exists cps :: Scalars(cps) && s == Utf8(cps)
  }

  /** A continuation byte. */
  predicate Tail(c: char) {
    0x80 <= c as int < 0xC0
  }

  /** The code point four bytes stand for. */
  function Value4(x: char, y: char, z: char, u: char): int {
    (x as int - 0xF0) * 262144 + (y as int - 0x80) * 4096 + (z as int - 0x80) * 64 + (u as int - 0x80)
  }

  function Value3(x: char, y: char, z: char): int {
    (x as int - 0xE0) * 4096 + (y as int - 0x80) * 64 + (z as int - 0x80)
  }

  /** utf8_valid: the length of the sequence at `i`, None when it is not one that
      encodes a scalar value and ends by `q`. */
  function SequenceAt(t: string, i: nat, q: nat): (r: Option<nat>)
    requires i < q <= |t|
    ensures r.Some? ==> 1 <= r.value <= 4 && i + r.value <= q
  {
    var c := t[i] as int;
    if c < 0x80 then Some(1)
    else if 0xC2 <= c <= 0xDF then
      if i + 2 <= q && Tail(t[i + 1]) then Some(2) else None
    else if 0xE0 <= c <= 0xEF then
      if i + 3 <= q && Tail(t[i + 1]) && Tail(t[i + 2]) then
        var cp := Value3(t[i], t[i + 1], t[i + 2]);
        if cp < 0x800 || 0xD800 <= cp <= 0xDFFF then None else Some(3)
      else None
    else if 0xF0 <= c <= 0xF4 then
      if i + 4 <= q && Tail(t[i + 1]) && Tail(t[i + 2]) && Tail(t[i + 3]) then
        var cp := Value4(t[i], t[i + 1], t[i + 2], t[i + 3]);
        if cp < 0x10000 || cp > 0x10FFFF then None else Some(4)
      else None
    else None
  }

  lemma Enc2(a: int, b: int)
    requires 2 <= a < 32 && 0 <= b < 64
    ensures Enc(a * 64 + b) == [(0xC0 + a) as char, (0x80 + b) as char]
  {
  }

  lemma Enc3(a: int, b: int, c: int)
    requires 0 <= a < 16 && 0 <= b < 64 && 0 <= c < 64 && a * 4096 + b * 64 + c >= 0x800
    ensures Enc(a * 4096 + b * 64 + c) == [(0xE0 + a) as char, (0x80 + b) as char, (0x80 + c) as char]
  {
    var cp := a * 4096 + b * 64 + c;
    assert cp / 64 == a * 64 + b;
  }

  lemma Enc4(a: int, b: int, c: int, d: int)
    requires 0 <= a <= 4 && 0 <= b < 64 && 0 <= c < 64 && 0 <= d < 64
    requires 0x10000 <= a * 262144 + b * 4096 + c * 64 + d < 0x110000
    ensures Enc(a * 262144 + b * 4096 + c * 64 + d)
         == [(0xF0 + a) as char, (0x80 + b) as char, (0x80 + c) as char, (0x80 + d) as char]
  {
    var cp := a * 262144 + b * 4096 + c * 64 + d;
    Quotients(a, b, c, d);
    assert Enc(cp) == [(0xF0 + cp / 262144) as char, (0x80 + cp / 4096 % 64) as char,
                       (0x80 + cp / 64 % 64) as char, (0x80 + cp % 64) as char];
    hide Enc;
  }

  lemma Quotients(a: int, b: int, c: int, d: int)
    requires 0 <= a <= 4 && 0 <= b < 64 && 0 <= c < 64 && 0 <= d < 64
    ensures var cp := a * 262144 + b * 4096 + c * 64 + d;
            && cp / 262144 == a && cp / 4096 % 64 == b && cp / 64 % 64 == c && cp % 64 == d
  {
    var cp := a * 262144 + b * 4096 + c * 64 + d;
    assert cp / 64 == a * 4096 + b * 64 + c;
    assert cp / 4096 == a * 64 + b;
  }

  lemma Bytes4(x: char, y: char, z: char, u: char)
    requires 0xF0 <= x as int <= 0xF4 && Tail(y) && Tail(z) && Tail(u)
    requires 0x10000 <= Value4(x, y, z, u) < 0x110000
    ensures Enc(Value4(x, y, z, u)) == [x, y, z, u]
  {
    Enc4(x as int - 0xF0, y as int - 0x80, z as int - 0x80, u as int - 0x80);
    hide Enc;
  }

  lemma Bytes3(x: char, y: char, z: char)
    requires 0xE0 <= x as int <= 0xEF && Tail(y) && Tail(z)
    requires 0x800 <= Value3(x, y, z)
    ensures Value3(x, y, z) < 0x10000 && Enc(Value3(x, y, z)) == [x, y, z]
  {
    Enc3(x as int - 0xE0, y as int - 0x80, z as int - 0x80);
    hide Enc;
  }

  /** An accepted sequence is the encoding of a scalar value. */
  lemma SequenceIsScalar(t: string, i: nat, q: nat) returns (cp: int)
    requires i < q <= |t| && t[i] as int >= 0x80 && SequenceAt(t, i, q).Some?
    ensures Scalar(cp) && t[i..i + SequenceAt(t, i, q).value] == Enc(cp)
  {
    hide Enc, Value3, Value4;
    var n := SequenceAt(t, i, q).value;
    if n == 2 {
      cp := (t[i] as int - 0xC0) * 64 + (t[i + 1] as int - 0x80);
      Enc2(t[i] as int - 0xC0, t[i + 1] as int - 0x80);
      assert t[i..i + 2] == [t[i], t[i + 1]];
    } else if n == 3 {
      cp := Value3(t[i], t[i + 1], t[i + 2]);
      Bytes3(t[i], t[i + 1], t[i + 2]);
      assert t[i..i + 3] == [t[i], t[i + 1], t[i + 2]];
    } else {
      cp := Value4(t[i], t[i + 1], t[i + 2], t[i + 3]);
      Bytes4(t[i], t[i + 1], t[i + 2], t[i + 3]);
      assert t[i..i + 4] == [t[i], t[i + 1], t[i + 2], t[i + 3]];
    }
  }

  lemma Sequence2(t: string, i: nat, q: nat, cp: int)
    requires 0x80 <= cp < 0x800 && TextAt(t, i, Enc(cp)) && i + 2 <= q <= |t|
    ensures t[i] as int >= 0x80 && SequenceAt(t, i, q) == Some(2)
  {
    TextAtIndex(t, i, Enc(cp), 0);
    TextAtIndex(t, i, Enc(cp), 1);
    hide TextAt;
  }

  lemma Sequence3(t: string, i: nat, q: nat, cp: int)
    requires 0x800 <= cp < 0x10000 && Scalar(cp) && TextAt(t, i, Enc(cp)) && i + 3 <= q <= |t|
    ensures t[i] as int >= 0x80 && SequenceAt(t, i, q) == Some(3)
  {
    TextAtIndex(t, i, Enc(cp), 0);
    TextAtIndex(t, i, Enc(cp), 1);
    TextAtIndex(t, i, Enc(cp), 2);
    hide TextAt;
    var a, b, c := cp / 4096, cp / 64 % 64, cp % 64;
    assert cp == a * 4096 + b * 64 + c;
  }

  lemma Value4OfEnc(cp: int)
    requires 0x10000 <= cp < 0x110000
    ensures var e := Enc(cp);
            && |e| == 4 && 0xF0 <= e[0] as int <= 0xF4 && Tail(e[1]) && Tail(e[2]) && Tail(e[3])
            && Value4(e[0], e[1], e[2], e[3]) == cp
  {
    var x, y := cp / 64, cp / 4096;
    assert x / 64 == y && y / 64 == cp / 262144;
    assert cp == x * 64 + cp % 64 && x == y * 64 + x % 64 && y == (y / 64) * 64 + y % 64;
  }

  lemma Sequence4(t: string, i: nat, q: nat, cp: int)
    requires 0x10000 <= cp < 0x110000 && TextAt(t, i, Enc(cp)) && i + 4 <= q <= |t|
    ensures t[i] as int >= 0x80 && SequenceAt(t, i, q) == Some(4)
  {
    Value4OfEnc(cp);
    hide Enc, Value4;
    TextAtIndex(t, i, Enc(cp), 0);
    TextAtIndex(t, i, Enc(cp), 1);
    TextAtIndex(t, i, Enc(cp), 2);
    TextAtIndex(t, i, Enc(cp), 3);
    hide TextAt;
  }

  /** The encoding of a scalar value is accepted. */
  lemma EncodingIsSequence(t: string, i: nat, q: nat, cp: int)
    requires Scalar(cp) && cp >= 0x80 && TextAt(t, i, Enc(cp)) && i + |Enc(cp)| <= q <= |t|
    ensures t[i] as int >= 0x80 && SequenceAt(t, i, q) == Some(|Enc(cp)|)
  {
    if cp < 0x800 {
      Sequence2(t, i, q, cp);
    } else if cp < 0x10000 {
      Sequence3(t, i, q, cp);
    } else {
      Sequence4(t, i, q, cp);
    }
    hide SequenceAt, TextAt;
  }

  // ---------------------------------------------------------------------
  // Decoding
  // ---------------------------------------------------------------------

  function HexVal(c: char): (r: int)
    ensures -1 <= r < 16
  {
    if '0' <= c <= '9' then c as int - '0' as int
    else if 'a' <= c <= 'f' then c as int - 'a' as int + 10
    else if 'A' <= c <= 'F' then c as int - 'A' as int + 10
    else -1
  }

  /** hex4. */
  function Hex4(t: string, i: nat): (r: Option<int>)
    ensures r.Some? ==> 0 <= r.value < 0x10000 && i + 4 <= |t|
  {
    if i + 4 > |t| then None
    else
      var a, b, c, d := HexVal(t[i]), HexVal(t[i + 1]), HexVal(t[i + 2]), HexVal(t[i + 3]);
      if a < 0 || b < 0 || c < 0 || d < 0 then None
      else Some(a * 4096 + b * 256 + c * 16 + d)
  }

  /** What a short escape stands for. */
  function Short(c: char): Option<char> {
    match c
    case '"' => Some('"')
    case '\\' => Some('\\')
    case '/' => Some('/')
    case 'b' => Some(8 as char)
    case 'f' => Some(12 as char)
    case 'n' => Some('\n')
    case 'r' => Some('\r')
    case 't' => Some('\t')
    case _ => None
  }

  /** The escape after "\\u" at `i`, in a literal that ends at `q`: the code point. */
  function Unicode(t: string, i: nat, q: nat): (r: Result<int>)
    requires i <= q <= |t|
    ensures r.Ok? ==> i + 4 <= r.next <= q && Scalar(r.value)
    ensures r.Ok? && r.value >= 0x10000 ==> r.next == i + 10
  {
    var h := Hex4(t, i);
    if h.None? || i + 4 > q then Err(BadString)
    else if 0xD800 <= h.value <= 0xDBFF then
      if q - (i + 4) < 6 || t[i + 4] != '\\' || t[i + 5] != 'u' then Err(BadSurrogate)
      else
        var lo := Hex4(t, i + 6);
        if lo.None? || i + 10 > q || lo.value < 0xDC00 || lo.value > 0xDFFF then Err(BadSurrogate)
        else Ok(0x10000 + (h.value - 0xD800) * 1024 + (lo.value - 0xDC00), i + 10)
    else if 0xDC00 <= h.value <= 0xDFFF then Err(BadSurrogate)
    else if h.value == 0 then Err(BadString)
    else Ok(h.value, i + 4)
  }

  /** One character or escape of a literal that ends at `q`. */
  function Piece(t: string, i: nat, q: nat): (r: Result<string>)
    requires i < q <= |t|
    ensures r.Ok? ==> i < r.next <= q && 1 <= |r.value| <= r.next - i
  {
    var c := t[i];
    if c as int < 0x20 then Err(BadString)
    else if c == '\\' then
      if i + 1 >= q then Err(BadString)
      else if t[i + 1] == 'u' then
        match Unicode(t, i + 2, q)
        case Err(e) => Err(e)
        case Ok(cp, n) => Ok(Enc(cp), n)
      else if Short(t[i + 1]).Some? then Ok([Short(t[i + 1]).value], i + 2)
      else Err(BadString)
    else if c as int < 0x80 then Ok([c], i + 1)
    else
      match SequenceAt(t, i, q)
      case None => Err(BadUtf8)
      case Some(n) => Ok(t[i..i + n], i + n)
  }

  /** The second pass of p_string. */
  function Decode(t: string, i: nat, q: nat): (r: Result<string>)
    requires i <= q <= |t|
    ensures r.Ok? ==> |r.value| <= q - i && r.next == q
    decreases q - i
  {
    if i == q then Ok("", q)
    else
      match Piece(t, i, q)
      case Err(e) => Err(e)
      case Ok(x, n) =>
        match Decode(t, n, q)
        case Err(e) => Err(e)
        case Ok(y, m) => Ok(x + y, q)
  }

  /** The first pass: the closing quote, or a position past the end. */
  function ClosingQuote(t: string, i: nat): (r: nat)
    ensures r < |t| ==> i <= r && t[r] == '"'
    decreases |t| - i
  {
    if i >= |t| then i
    else if t[i] == '\\' then ClosingQuote(t, i + 2)
    else if t[i] == '"' then i
    else ClosingQuote(t, i + 1)
  }

  /** p_string: a literal whose opening quote should be at `i`. */
  function ParseString(t: string, i: nat): (r: Result<string>)
    ensures r.Ok? ==> i + 2 <= r.next <= |t| && t[r.next - 1] == '"' && |r.value| <= r.next - i - 2
  {
    if i >= |t| || t[i] != '"' then Err(Syntax)
    else
      var q := ClosingQuote(t, i + 1);
      if q >= |t| then Err(BadString)
      else
        match Decode(t, i + 1, q)
        case Err(e) => Err(e)
        case Ok(x, _) => Ok(x, q + 1)
  }

  // ---------------------------------------------------------------------
  // Accepted strings are valid UTF-8
  // ---------------------------------------------------------------------

  lemma PieceIsScalar(t: string, i: nat, q: nat) returns (cp: int)
    requires i < q <= |t| && Piece(t, i, q).Ok?
    ensures Scalar(cp) && Piece(t, i, q).value == Enc(cp)
  {
    var c := t[i];
    if c == '\\' {
      if t[i + 1] == 'u' {
        cp := Unicode(t, i + 2, q).value;
      } else {
        cp := Short(t[i + 1]).value as int;
      }
    } else if c as int < 0x80 {
      cp := c as int;
    } else {
      cp := SequenceIsScalar(t, i, q);
    }
  }

  lemma {:induction false} DecodeIsValid(t: string, i: nat, q: nat)
    requires i <= q <= |t| && Decode(t, i, q).Ok?
    ensures ValidUtf8(Decode(t, i, q).value)
    decreases q - i
  {
    if i == q {
      assert Scalars([]) && Utf8([]) == "";
    } else {
      var p := Piece(t, i, q);
      var cp := PieceIsScalar(t, i, q);
      DecodeIsValid(t, p.next, q);
      hide Piece, Enc;
      var rest := Decode(t, p.next, q).value;
      var cps :| Scalars(cps) && rest == Utf8(cps);
      var all := [cp] + cps;
      assert all[1..] == cps;
      assert Scalars(all) && Utf8(all) == Enc(cp) + rest;
    }
  }

  /** Every accepted literal decodes to valid UTF-8 without NUL, no longer than
      its text, and the cursor ends just past the closing quote. */
  lemma AcceptedStringIsValid(t: string, i: nat)
    requires ParseString(t, i).Ok?
    ensures var r := ParseString(t, i);
            ValidUtf8(r.value) && |r.value| <= r.next - i - 2 && t[r.next - 1] == '"'
  {
    DecodeIsValid(t, i + 1, ClosingQuote(t, i + 1));
  }

  lemma {:induction false} ValidHasNoNul(cps: seq<int>)
    requires Scalars(cps)
    ensures 0 as char !in Utf8(cps)
  {
    if cps != [] {
      ValidHasNoNul(cps[1..]);
      assert 0 as char !in Enc(cps[0]);
      hide Enc;
    }
  }

  // ---------------------------------------------------------------------
  // Spellings
  // ---------------------------------------------------------------------

  /** Ways to write a character: as it is where JSON allows it, as a short escape
      where there is one, or as one or two \\u escapes. */
  datatype Style = Plain | Brief | Coded

  function HexDigit(n: int): (c: char)
    requires 0 <= n < 16
    ensures HexVal(c) == n && c != '"' && c != '\\'
  {
    if n < 10 then ('0' as int + n) as char else ('a' as int + n - 10) as char
  }

  function Hex(n: int): (r: string)
    requires 0 <= n < 0x10000
    ensures |r| == 4
  {
    [HexDigit(n / 4096), HexDigit(n / 256 % 16), HexDigit(n / 16 % 16), HexDigit(n % 16)]
  }

  /** The letter of a short escape. */
  function Letter(cp: int): (r: Option<char>)
    ensures r.Some? ==> 0 <= cp < 0x80 && Short(r.value) == Some(cp as char)
  {
    if cp == 8 then Some('b') else if cp == 9 then Some('t') else if cp == 10 then Some('n')
    else if cp == 12 then Some('f') else if cp == 13 then Some('r')
    else if cp == 0x22 then Some('"') else if cp == 0x2F then Some('/') else if cp == 0x5C then Some('\\')
    else None
  }

  function Code(n: int): (r: string)
    requires 0 <= n < 0x10000
    ensures |r| == 6
  {
    ['\\', 'u'] + Hex(n)
  }

  /** Two escapes for a character beyond the basic plane. */
  function Pair(cp: int): string
    requires 0x10000 <= cp < 0x110000
  {
    Code(0xD800 + (cp - 0x10000) / 1024) + Code(0xDC00 + cp % 1024)
  }

  function Spell(cp: int, style: Style): (r: string)
    requires Scalar(cp)
    ensures r != ""
  {
    if style == Coded then (if cp < 0x10000 then Code(cp) else Pair(cp))
    else if cp == 0x22 || cp == 0x5C then ['\\', cp as char]
    else if style == Brief && Letter(cp).Some? then ['\\', Letter(cp).value]
    else if cp < 0x20 then Code(cp)
    else Enc(cp)
  }

  lemma HexReads(t: string, i: nat, n: int)
    requires 0 <= n < 0x10000 && TextAt(t, i, Hex(n))
    ensures Hex4(t, i) == Some(n)
  {
    var h := Hex(n);
    TextAtIndex(t, i, h, 0);
    TextAtIndex(t, i, h, 1);
    TextAtIndex(t, i, h, 2);
    TextAtIndex(t, i, h, 3);
    hide TextAt;
    var x, y := n / 16, n / 256;
    assert x / 16 == y && y / 16 == n / 4096;
    assert n == x * 16 + n % 16 && x == y * 16 + x % 16 && y == (y / 16) * 16 + y % 16;
  }

  lemma CodeReads(t: string, i: nat, n: int)
    requires 0 <= n < 0x10000 && TextAt(t, i, Code(n))
    ensures t[i] == '\\' && t[i + 1] == 'u' && Hex4(t, i + 2) == Some(n)
  {
    TextAtJoin(t, i, ['\\', 'u'], Hex(n));
    TextAtIndex(t, i, ['\\', 'u'], 0);
    TextAtIndex(t, i, ['\\', 'u'], 1);
    HexReads(t, i + 2, n);
  }

  lemma PairParts(cp: int)
    requires 0x10000 <= cp < 0x110000
    ensures var hi, lo := 0xD800 + (cp - 0x10000) / 1024, 0xDC00 + cp % 1024;
            && 0xD800 <= hi <= 0xDBFF && 0xDC00 <= lo <= 0xDFFF
            && cp == 0x10000 + (hi - 0xD800) * 1024 + (lo - 0xDC00)
  {
    assert (cp - 0x10000) % 1024 == cp % 1024;
  }

  lemma PairUnicode(t: string, i: nat, q: nat, cp: int)
    requires 0x10000 <= cp < 0x110000 && TextAt(t, i, Pair(cp)) && i + 12 <= q <= |t|
    ensures t[i] == '\\' && t[i + 1] == 'u' && Unicode(t, i + 2, q) == Ok(cp, i + 12)
  {
    hide TextAt, Hex4, Code;
    var hi, lo := 0xD800 + (cp - 0x10000) / 1024, 0xDC00 + cp % 1024;
    PairParts(cp);
    TextAtJoin(t, i, Code(hi), Code(lo));
    CodeReads(t, i, hi);
    CodeReads(t, i + 6, lo);
  }

  lemma PairPiece(t: string, i: nat, q: nat, cp: int)
    requires 0x10000 <= cp < 0x110000 && TextAt(t, i, Pair(cp)) && i + 12 <= q <= |t|
    ensures Piece(t, i, q) == Ok(Enc(cp), i + 12)
  {
    PairUnicode(t, i, q, cp);
    hide TextAt, Unicode, Enc, SequenceAt, Pair;
  }

  lemma CodePiece(t: string, i: nat, q: nat, cp: int)
    requires Scalar(cp) && cp < 0x10000 && TextAt(t, i, Code(cp)) && i + 6 <= q <= |t|
    ensures Piece(t, i, q) == Ok(Enc(cp), i + 6)
  {
    CodeReads(t, i, cp);
    hide TextAt, Hex4, SequenceAt, Code, Enc;
  }

  lemma EscapePiece(t: string, i: nat, q: nat, c: char)
    requires TextAt(t, i, ['\\', c]) && Short(c).Some? && i + 2 <= q <= |t|
    ensures Piece(t, i, q) == Ok([Short(c).value], i + 2)
  {
    TextAtIndex(t, i, ['\\', c], 0);
    TextAtIndex(t, i, ['\\', c], 1);
    hide TextAt;
  }

  lemma RawPiece(t: string, i: nat, q: nat, cp: int)
    requires Scalar(cp) && cp >= 0x20 && cp != 0x22 && cp != 0x5C && TextAt(t, i, Enc(cp)) && i + |Enc(cp)| <= q <= |t|
    ensures Piece(t, i, q) == Ok(Enc(cp), i + |Enc(cp)|)
  {
    if cp < 0x80 {
      TextAtIndex(t, i, Enc(cp), 0);
      hide TextAt, SequenceAt;
    } else {
      EncodingIsSequence(t, i, q, cp);
      hide SequenceAt, Enc;
      assert t[i..i + |Enc(cp)|] == Enc(cp);
    }
  }

  /** Every spelling of a character is decoded to its encoding. */
  lemma PieceOfSpell(t: string, i: nat, q: nat, cp: int, style: Style)
    requires Scalar(cp) && TextAt(t, i, Spell(cp, style)) && i + |Spell(cp, style)| <= q <= |t|
    ensures Piece(t, i, q) == Ok(Enc(cp), i + |Spell(cp, style)|)
  {
    hide Piece, TextAt, Code;
    if style == Coded {
      if cp < 0x10000 { CodePiece(t, i, q, cp); } else { PairPiece(t, i, q, cp); }
    } else if cp == 0x22 || cp == 0x5C {
      EscapePiece(t, i, q, cp as char);
    } else if style == Brief && Letter(cp).Some? {
      EscapePiece(t, i, q, Letter(cp).value);
    } else if cp < 0x20 {
      CodePiece(t, i, q, cp);
    } else {
      RawPiece(t, i, q, cp);
    }
  }

  // ---------------------------------------------------------------------
  // The first pass skips every spelling
  // ---------------------------------------------------------------------

  /** Text without quotes and backslashes. */
  ghost predicate Tame(x: string) {
    forall k :: 0 <= k < |x| ==> x[k] != '"' && x[k] != '\\'
  }

  lemma {:induction false} TameIsSkipped(t: string, i: nat, n: nat)
    requires i + n <= |t| && forall k :: i <= k < i + n ==> t[k] != '"' && t[k] != '\\'
    ensures ClosingQuote(t, i) == ClosingQuote(t, i + n)
    decreases n
  {
    if n > 0 {
      TameIsSkipped(t, i + 1, n - 1);
    }
  }

  lemma TameTextIsSkipped(t: string, i: nat, x: string)
    requires TextAt(t, i, x) && Tame(x)
    ensures ClosingQuote(t, i) == ClosingQuote(t, i + |x|)
  {
    forall k | i <= k < i + |x| ensures t[k] != '"' && t[k] != '\\' {
      assert t[i + (k - i)] == x[k - i];
    }
    TameIsSkipped(t, i, |x|);
  }

  lemma CodeIsSkipped(t: string, i: nat, n: int)
    requires 0 <= n < 0x10000 && TextAt(t, i, Code(n))
    ensures ClosingQuote(t, i) == ClosingQuote(t, i + 6)
  {
    CodeReads(t, i, n);
    TextAtJoin(t, i, ['\\', 'u'], Hex(n));
    assert Tame(Hex(n));
    TameTextIsSkipped(t, i + 2, Hex(n));
  }

  lemma SpellIsSkipped(t: string, i: nat, cp: int, style: Style)
    requires Scalar(cp) && TextAt(t, i, Spell(cp, style))
    ensures ClosingQuote(t, i) == ClosingQuote(t, i + |Spell(cp, style)|)
  {
    hide TextAt, Code;
    var x := Spell(cp, style);
    if style == Coded && cp >= 0x10000 {
      var hi, lo := 0xD800 + (cp - 0x10000) / 1024, 0xDC00 + cp % 1024;
      TextAtJoin(t, i, Code(hi), Code(lo));
      CodeIsSkipped(t, i, hi);
      CodeIsSkipped(t, i + 6, lo);
    } else if cp < 0x10000 && x == Code(cp) {
      CodeIsSkipped(t, i, cp);
    } else if |x| == 2 && x[0] == '\\' {
      TextAtEnd(t, i, x);
      TextAtIndex(t, i, x, 0);
    } else {
      assert Tame(x);
      TameTextIsSkipped(t, i, x);
    }
  }

  // ---------------------------------------------------------------------
  // Round trips
  // ---------------------------------------------------------------------

  function SpellAll(cps: seq<int>, styles: seq<Style>): string
    requires Scalars(cps) && |cps| == |styles|
  {
    if cps == [] then "" else Spell(cps[0], styles[0]) + SpellAll(cps[1..], styles[1..])
  }

  lemma DecodeStep(t: string, i: nat, q: nat, x: string, n: nat, y: string)
    requires i < n <= q <= |t| && Piece(t, i, q) == Ok(x, n) && Decode(t, n, q) == Ok(y, q)
    ensures Decode(t, i, q) == Ok(x + y, q)
  {
    hide Piece;
  }

  lemma {:induction false} DecodeSpelled(t: string, i: nat, q: nat, cps: seq<int>, styles: seq<Style>)
    requires Scalars(cps) && |cps| == |styles|
    requires TextAt(t, i, SpellAll(cps, styles)) && q == i + |SpellAll(cps, styles)|
    ensures q <= |t| && Decode(t, i, q) == Ok(Utf8(cps), q)
    ensures ClosingQuote(t, i) == ClosingQuote(t, q)
    decreases |cps|
  {
    hide Spell, Piece, Enc, ClosingQuote, TextAt;
    TextAtEnd(t, i, SpellAll(cps, styles));
    if cps != [] {
      var x, y := Spell(cps[0], styles[0]), SpellAll(cps[1..], styles[1..]);
      assert SpellAll(cps, styles) == x + y;
      assert Utf8(cps) == Enc(cps[0]) + Utf8(cps[1..]);
      hide SpellAll, Decode, Utf8;
      TextAtJoin(t, i, x, y);
      PieceOfSpell(t, i, q, cps[0], styles[0]);
      SpellIsSkipped(t, i, cps[0], styles[0]);
      DecodeSpelled(t, i + |x|, q, cps[1..], styles[1..]);
      DecodeStep(t, i, q, Enc(cps[0]), i + |x|, Utf8(cps[1..]));
    }
  }

  /** However the characters of a NUL-free text are written, the literal decodes to
      its UTF-8 encoding, with the cursor just past the closing quote. */
  lemma SpelledLiteralParses(t: string, i: nat, cps: seq<int>, styles: seq<Style>)
    requires Scalars(cps) && |cps| == |styles|
    requires TextAt(t, i, "\"" + SpellAll(cps, styles) + "\"")
    ensures ParseString(t, i) == Ok(Utf8(cps), i + |SpellAll(cps, styles)| + 2)
  {
    hide TextAt, Decode, SpellAll, Utf8;
    var x := SpellAll(cps, styles);
    var q := i + 1 + |x|;
    TextAtJoin(t, i, "\"" + x, "\"");
    TextAtJoin(t, i, "\"", x);
    TextAtIndex(t, i, "\"", 0);
    TextAtIndex(t, q, "\"", 0);
    DecodeSpelled(t, i + 1, q, cps, styles);
    TextAtEnd(t, q, "\"");
    assert ClosingQuote(t, q) == q;
  }

  function EscapeByte(c: char): string {
    if c == '"' || c == '\\' then ['\\', c] else if c as int < 0x20 then Code(c as int) else [c]
  }

  /** The standard printing of a string's bytes. */
  function Escape(s: string): string {
    if s == "" then "" else EscapeByte(s[0]) + Escape(s[1..])
  }

  lemma {:induction false} EscapeJoin(x: string, y: string)
    ensures Escape(x + y) == Escape(x) + Escape(y)
  {
    hide Escape, EscapeByte;
    if x == "" {
      EscapeNone(y);
    } else {
      EscapeFirst(x);
      EscapeFirst(x + y);
      FirstOfJoin(x, y);
      EscapeJoin(x[1..], y);
      Assoc(EscapeByte(x[0]), Escape(x[1..]), Escape(y));
    }
  }

  lemma FirstOfJoin(x: string, y: string)
    requires x != ""
    ensures x + y != "" && (x + y)[0] == x[0] && (x + y)[1..] == x[1..] + y
  {
  }

  lemma EscapeNone(y: string)
    ensures Escape("" + y) == Escape("") + Escape(y)
  {
    assert "" + y == y && "" + Escape(y) == Escape(y);
  }

  lemma EscapeFirst(x: string)
    requires x != ""
    ensures Escape(x) == EscapeByte(x[0]) + Escape(x[1..])
  {
  }

  lemma {:induction false} EscapeTame(x: string)
    requires Tame(x) && forall k :: 0 <= k < |x| ==> x[k] as int >= 0x20
    ensures Escape(x) == x
  {
    if x != "" {
      EscapeTame(x[1..]);
    }
  }

  lemma EscapeOne(cp: int)
    requires Scalar(cp)
    ensures Escape(Enc(cp)) == Spell(cp, Plain)
  {
    var e := Enc(cp);
    if cp < 0x80 {
      assert e[1..] == "";
      assert Escape(e) == Spell(cp, Plain) + "";
    } else {
      EscapeTame(e);
    }
  }

  lemma {:induction false} EscapeIsSpelling(cps: seq<int>)
    requires Scalars(cps)
    ensures Escape(Utf8(cps)) == SpellAll(cps, seq(|cps|, _ => Plain))
  {
    if cps != [] {
      EscapeIsSpelling(cps[1..]);
      EscapeOne(cps[0]);
      EscapeJoin(Enc(cps[0]), Utf8(cps[1..]));
      hide Enc, Spell, Escape;
      var styles := seq(|cps|, _ => Plain);
      assert styles[1..] == seq(|cps[1..]|, _ => Plain);
      assert styles[0] == Plain;
    }
  }

  function Quote(s: string): string {
    "\"" + Escape(s) + "\""
  }

  /** Parsing the printing of a valid string gives it back. */
  lemma QuotedParses(t: string, i: nat, s: string)
    requires ValidUtf8(s) && TextAt(t, i, Quote(s))
    ensures ParseString(t, i) == Ok(s, i + |Quote(s)|)
  {
    var cps :| Scalars(cps) && s == Utf8(cps);
    EscapeIsSpelling(cps);
    SpelledLiteralParses(t, i, cps, seq(|cps|, _ => Plain));
  }
}
