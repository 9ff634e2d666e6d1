/** The JSON reader as the program runs it: one cursor moved through the text, and
    strings decoded into a buffer of the literal's size. */
module JsonReader {
  import opened Common
  import opened JsonText
  import opened Json

  /** What a parse gives when `got` was already read before `rest`. */
  function After<T>(got: seq<T>, rest: Result<seq<T>>): Result<seq<T>> {
    match rest
    case Err(e) => Err(e)
    case Ok(xs, n) => Ok(got + xs, n)
  }

  class Reader {
    const text: string
    var p: nat

    constructor (text: string)
      ensures this.text == text && p == 0
    {
      this.text := text;
      p := 0;
    }

    method SkipSpace()
      modifies this`p
      ensures p == SkipWs(text, old(p))
    {
      while p < |text| && Space(text[p])
        invariant SkipWs(text, p) == SkipWs(text, old(p))
        decreases |text| - p
      {
        p := p + 1;
      }
    }

    /** First pass of p_string: where the literal ends. */
    method FindClosing(start: nat) returns (q: nat)
      ensures q == ClosingQuote(text, start)
    {
      q := start;
      while q < |text|
        invariant ClosingQuote(text, q) == ClosingQuote(text, start)
        decreases |text| - q
      {
        if text[q] == '\\' {
          q := q + 2;
        } else if text[q] == '"' {
          return;
        } else {
          q := q + 1;
        }
      }
    }

    /** Second pass: decode into a buffer reserved for the raw length; writing never
        passes its end. */
    method DecodeInto(buf: array<char>, start: nat, q: nat) returns (r: Result<nat>)
      requires start <= q <= |text| && buf.Length == q - start + 1
      modifies buf, this`p
      ensures match Decode(text, start, q)
              case Err(e) => r == Err(e)
              case Ok(x, _) => r.Ok? && r.value == |x| < buf.Length && buf[..r.value] == x
    {
      p := start;
      var o: nat := 0;
      ghost var got := "";
      JoinedNone(Decode(text, start, q));
      hide Decode, Piece, Joined;
      while p < q
        invariant start <= p <= q && o <= p - start && buf[..o] == got
        invariant Decode(text, start, q) == Joined(got, Decode(text, p, q))
        decreases q - p
      {
        var c := Piece(text, p, q);
        JoinedStep(text, p, q, got);
        if c.Err? { return Err(c.error); }
        Copy(buf, o, c.value);
        got := got + c.value;
        o := o + |c.value|;
        p := c.next;
      }
      JoinedAll(text, q, got);
      return Ok(o, q);
    }

    /** p_string. */
    method PString() returns (r: Result<string>)
      modifies this`p
      ensures r == ParseString(text, old(p))
      ensures r.Ok? ==> p == r.next
    {
      if p >= |text| || text[p] != '"' { return Err(Syntax); }
      var start := p + 1;
      var q := FindClosing(start);
      if q >= |text| { return Err(BadString); }
      var buf := new char[q - start + 1];
      var d := DecodeInto(buf, start, q);
      if d.Err? { return Err(d.error); }
      p := q + 1;
      return Ok(buf[..d.value], q + 1);
    }

    method PInteger() returns (ok: bool)
      requires p <= |text|
      modifies this`p
      ensures IntegerEnd(text, old(p)) == if ok then Some(p) else None
      ensures ok ==> p <= |text|
    {
      if !DigitAt(text, p) { return false; }
      if text[p] == '0' {
        p := p + 1;
        return !DigitAt(text, p);
      }
      p := p + 1;
      SkipDigits();
      return true;
    }

    method PFraction() returns (ok: bool)
      requires p <= |text|
      modifies this`p
      ensures FractionEnd(text, old(p)) == if ok then Some(p) else None
      ensures ok ==> p <= |text|
    {
      if p >= |text| || text[p] != '.' { return true; }
      p := p + 1;
      if !DigitAt(text, p) { return false; }
      SkipDigits();
      return true;
    }

    method PExponent() returns (ok: bool)
      requires p <= |text|
      modifies this`p
      ensures ExponentEnd(text, old(p)) == if ok then Some(p) else None
      ensures ok ==> p <= |text|
    {
      if p >= |text| || (text[p] != 'e' && text[p] != 'E') { return true; }
      p := p + 1;
      if p < |text| && (text[p] == '+' || text[p] == '-') { p := p + 1; }
      if !DigitAt(text, p) { return false; }
      SkipDigits();
      return true;
    }

    /** p_number: a number of fewer than 64 characters; an integer that fits 64 bits
        is one, any other number keeps its literal. */
    method PNumber() returns (r: Result<Value>)
      requires p < |text|
      modifies this`p
      ensures r == ParseNumber(text, old(p))
      ensures r.Ok? ==> p == r.next
    {
      hide IntegerEnd, FractionEnd, ExponentEnd;
      var start := p;
      if text[p] == '-' { p := p + 1; }
      var s := p;
      var ok := PInteger();
      if !ok { return Err(BadNumber); }
      var e := p;
      ok := PFraction();
      if !ok { return Err(BadNumber); }
      ok := PExponent();
      if !ok || p - start >= 64 { return Err(BadNumber); }
      var n := Signed(text[start] == '-', Number(text, s, 0));
      if p == e && Int64(n) {
        return Ok(Int(n), p);
      }
      return Ok(Real(text[start..p]), p);
    }

    method SkipDigits()
      requires p <= |text|
      modifies this`p
      ensures p == DigitsEnd(text, old(p))
    {
      while p < |text| && IsDigit(text[p])
        invariant p <= |text| && DigitsEnd(text, p) == DigitsEnd(text, old(p))
        decreases |text| - p
      {
        p := p + 1;
      }
    }

    /** p_literal. */
    method PLiteral(word: string, v: Value) returns (r: Result<Value>)
      requires p < |text| && word != ""
      modifies this`p
      ensures r == ParseLiteral(text, old(p), word, v)
      ensures r.Ok? ==> p == r.next
    {
      if |text| - p < |word| || text[p..p + |word|] != word { return Err(Syntax); }
      p := p + |word|;
      return Ok(v, p);
    }

    /** p_value: the value at the cursor, which ends just past it. */
    method PValue(depth: nat) returns (r: Result<Value>)
      modifies this`p
      ensures r == ParseValue(text, old(p), depth)
      ensures r.Ok? ==> p == r.next
      decreases |text| - p, 0
    {
      if depth > MAX_DEPTH { return Err(TooDeep); }
      if p >= |text| { return Err(Syntax); }
      var c := text[p];
      hide ParseMembers, ParseItems, ParseString, ParseNumber, ParseLiteral, SkipWs;
      if c == '{' {
        p := p + 1;
        SkipSpace();
        if p < |text| && text[p] == '}' { p := p + 1; return Ok(Obj([]), p); }
        var ms := PMembers(depth);
        if ms.Err? { return Err(ms.error); }
        return Ok(Obj(ms.value), p);
      } else if c == '[' {
        p := p + 1;
        SkipSpace();
        if p < |text| && text[p] == ']' { p := p + 1; return Ok(Arr([]), p); }
        var vs := PItems(depth);
        if vs.Err? { return Err(vs.error); }
        return Ok(Arr(vs.value), p);
      } else if c == '"' {
        var s := PString();
        if s.Err? { return Err(s.error); }
        return Ok(Str(s.value), p);
      } else if c == 't' {
        r := PLiteral("true", Bool(true));
      } else if c == 'f' {
        r := PLiteral("false", Bool(false));
      } else if c == 'n' {
        r := PLiteral("null", Null);
      } else if c == '-' || IsDigit(c) {
        r := PNumber();
      } else {
        r := Err(Syntax);
      }
    }

    /** One member of an object and the space after it. */
    method PMember(depth: nat) returns (r: Result<Member>)
      requires p <= |text|
      modifies this`p
      ensures r == ParseMember(text, old(p), depth)
      ensures r.Ok? ==> p == r.next
      decreases |text| - p, 1
    {
      ghost var start := p;
      hide ParseValue, ParseString, SkipWs;
      SkipSpace();
      var k := PString();
      if k.Err? { return Err(k.error); }
      SkipSpace();
      if p >= |text| || text[p] != ':' { return Err(Syntax); }
      p := p + 1;
      SkipSpace();
      var v := PValue(depth + 1);
      if v.Err? { return Err(v.error); }
      SkipSpace();
      return Ok(Member(k.value, v.value), p);
    }

    /** The members of an object, appended in order. */
    method PMembers(depth: nat) returns (r: Result<seq<Member>>)
      requires p <= |text|
      modifies this`p
      ensures r == ParseMembers(text, old(p), depth)
      ensures r.Ok? ==> p == r.next
      decreases |text| - p, 2
    {
      ghost var start := p;
      var got: seq<Member> := [];
      hide ParseMember, ParseMembers, SkipWs, After;
      AfterNone(ParseMembers(text, p, depth));
      while true
        invariant start <= p <= |text|
        invariant ParseMembers(text, start, depth) == After(got, ParseMembers(text, p, depth))
        decreases |text| - p
      {
        MembersStep(text, p, depth, got);
        var m := PMember(depth);
        if m.Err? { return Err(m.error); }
        got := got + [m.value];
        if p < |text| && text[p] == ',' {
          p := p + 1;
        } else if p < |text| && text[p] == '}' {
          p := p + 1;
          return Ok(got, p);
        } else {
          return Err(Syntax);
        }
      }
    }

    /** The elements of an array, appended in order. */
    method PItems(depth: nat) returns (r: Result<seq<Value>>)
      requires p <= |text|
      modifies this`p
      ensures r == ParseItems(text, old(p), depth)
      ensures r.Ok? ==> p == r.next
      decreases |text| - p, 2
    {
      ghost var start := p;
      var got: seq<Value> := [];
      hide ParseValue, ParseItems, SkipWs, After;
      AfterNone(ParseItems(text, p, depth));
      while true
        invariant start <= p <= |text|
        invariant ParseItems(text, start, depth) == After(got, ParseItems(text, p, depth))
        decreases |text| - p
      {
        ItemsStep(text, p, depth, got);
        SkipSpace();
        var v := PValue(depth + 1);
        if v.Err? { return Err(v.error); }
        got := got + [v.value];
        SkipSpace();
        if p < |text| && text[p] == ',' {
          p := p + 1;
        } else if p < |text| && text[p] == ']' {
          p := p + 1;
          return Ok(got, p);
        } else {
          return Err(Syntax);
        }
      }
    }
  }

  /** jmap_json_parse. */
  method ParseText(text: string) returns (r: Result<Value>)
    ensures r == Parse(text)
  {
    hide ParseValue, SkipWs;
    var reader := new Reader(text);
    reader.SkipSpace();
    var v := reader.PValue(1);
    if v.Err? { return v; }
    reader.SkipSpace();
    if reader.p != |text| { return Err(Trailing); }
    return Ok(v.value, |text|);
  }

  lemma AfterNone<T>(rest: Result<seq<T>>)
    ensures After([], rest) == rest
  {
    assert rest.Ok? ==> [] + rest.value == rest.value;
  }

  lemma MembersStep(t: string, i: nat, depth: nat, got: seq<Member>)
    requires i <= |t|
    ensures var m, all := ParseMember(t, i, depth), After(got, ParseMembers(t, i, depth));
            match m
            case Err(e) => all == Err(e)
            case Ok(x, j) =>
              if At(t, j, ',') then all == After(got + [x], ParseMembers(t, j + 1, depth))
              else if At(t, j, '}') then all == Ok(got + [x], j + 1)
              else all == Err(Syntax)
  {
    hide ParseMember;
    var m := ParseMember(t, i, depth);
    if m.Ok? && At(t, m.next, ',') && ParseMembers(t, m.next + 1, depth).Ok? {
      var ms := ParseMembers(t, m.next + 1, depth).value;
      assert got + ([m.value] + ms) == got + [m.value] + ms;
    }
  }

  lemma ItemsStep(t: string, i: nat, depth: nat, got: seq<Value>)
    requires i <= |t|
    ensures var v, all := ParseValue(t, SkipWs(t, i), depth + 1), After(got, ParseItems(t, i, depth));
            match v
            case Err(e) => all == Err(e)
            case Ok(x, n) =>
              var j := SkipWs(t, n);
              if At(t, j, ',') then all == After(got + [x], ParseItems(t, j + 1, depth))
              else if At(t, j, ']') then all == Ok(got + [x], j + 1)
              else all == Err(Syntax)
  {
    hide ParseValue, SkipWs;
    var v := ParseValue(t, SkipWs(t, i), depth + 1);
    if v.Ok? {
      var j := SkipWs(t, v.next);
      if At(t, j, ',') && ParseItems(t, j + 1, depth).Ok? {
        var vs := ParseItems(t, j + 1, depth).value;
        assert got + ([v.value] + vs) == got + [v.value] + vs;
      }
    }
  }

  function Joined(got: string, rest: Result<string>): Result<string> {
    match rest
    case Err(e) => Err(e)
    case Ok(x, n) => Ok(got + x, n)
  }

  lemma JoinedStep(t: string, i: nat, q: nat, got: string)
    requires i < q <= |t|
    ensures var c := Piece(t, i, q);
            (Joined(got, Decode(t, i, q))
             == if c.Err? then Err(c.error) else Joined(got + c.value, Decode(t, c.next, q)))
  {
    hide Piece;
    var c := Piece(t, i, q);
    if c.Ok? && Decode(t, c.next, q).Ok? {
      Assoc(got, c.value, Decode(t, c.next, q).value);
    }
  }

  lemma JoinedNone(rest: Result<string>)
    ensures Joined("", rest) == rest
  {
    assert rest.Ok? ==> "" + rest.value == rest.value;
  }

  lemma JoinedAll(t: string, q: nat, got: string)
    requires q <= |t|
    ensures Joined(got, Decode(t, q, q)) == Ok(got, q)
  {
    assert got + "" == got;
  }

  method Copy(buf: array<char>, o: nat, x: string)
    requires o + |x| <= buf.Length
    modifies buf
    ensures buf[..o + |x|] == old(buf[..o]) + x
  {
    for k := 0 to |x|
      invariant buf[..o + k] == old(buf[..o]) + x[..k]
    {
      buf[o + k] := x[k];
    }
  }
}
