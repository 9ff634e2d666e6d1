/** The header cache's sidecar file: escaped rows, their loading, and the join that
    hands them to the messages of a view. */
module HeaderFile {
  import opened Common
  import opened UidlistFile

  // ---------------------------------------------------------------------
  // Escaping
  // ---------------------------------------------------------------------

  function EscapeChar(c: char): string {
    if c == '\t' then ['\\', 't']
    else if c == '\n' then ['\\', 'n']
    else if c == '\r' then ['\\', 'r']
    else if c == '\\' then ['\\', '\\']
    else [c]
  }

  function Escape(s: string): string {
    if s == "" then "" else EscapeChar(s[0]) + Escape(s[1..])
  }

  function Unescaped(c: char): char {
    if c == 't' then '\t' else if c == 'n' then '\n' else if c == 'r' then '\r' else c
  }

  /** hdrs_unescape, from `i` on. */
  function Unescape(s: string, i: nat): string
    requires i <= |s|
    decreases |s| - i
  {
    if i == |s| then ""
    else if s[i] == '\\' && i + 1 < |s| then [Unescaped(s[i + 1])] + Unescape(s, i + 2)
    else [s[i]] + Unescape(s, i + 1)
  }

  lemma UnescapeOne(t: string, i: nat, c: char)
    requires TextAt(t, i, EscapeChar(c))
    ensures i + |EscapeChar(c)| <= |t| && Unescape(t, i) == [c] + Unescape(t, i + |EscapeChar(c)|)
  {
    var e := EscapeChar(c);
    TextAtHead(t, i, e);
    if |e| == 2 { assert t[i + 1] == e[1]; }
  }

  lemma EscapeHead(s: string)
    ensures Escape(s) == if s == "" then "" else EscapeChar(s[0]) + Escape(s[1..])
  {
  }

  lemma UnescapeNone(t: string)
    ensures Unescape(t, |t|) == ""
  {
  }

  lemma {:induction false} UnescapeAt(t: string, i: nat, s: string)
    requires TextAt(t, i, Escape(s)) && i + |Escape(s)| == |t|
    ensures Unescape(t, i) == s
    decreases s
  {
    hide EscapeChar, TextAt, Escape, Unescape;
    EscapeHead(s);
    if s == "" {
      UnescapeNone(t);
    } else {
      var e, more := EscapeChar(s[0]), Escape(s[1..]);
      TextAtJoin(t, i, e, more);
      TextAtEnd(t, i + |e|, more);
      UnescapeOne(t, i, s[0]);
      UnescapeAt(t, i + |e|, s[1..]);
      HeadTail(s);
    }
  }

  /** Unescaping undoes escaping, for every value. */
  lemma UnescapeEscape(s: string)
    ensures Unescape(Escape(s), 0) == s
  {
    TextAtSelf(Escape(s));
    UnescapeAt(Escape(s), 0, s);
  }

  lemma {:induction false} EscapedIsOneColumn(s: string)
    ensures '\t' !in Escape(s) && '\n' !in Escape(s)
  {
    if s != "" { EscapedIsOneColumn(s[1..]); }
  }

  /** hdrs_unescape in place: the reader runs ahead of the writer. */
  method UnescapeInPlace(a: array<char>) returns (n: nat)
    modifies a
    ensures n <= a.Length && a[..n] == Unescape(old(a[..]), 0)
  {
    ghost var s := a[..];
    ghost var done := "";
    var r: nat, w: nat := 0, 0;
    assert "" + Unescape(s, 0) == Unescape(s, 0);
    while r < a.Length
      invariant w <= r <= a.Length == |s| && a[..w] == done
      invariant done + Unescape(s, r) == Unescape(s, 0)
      invariant forall k :: r <= k < |s| ==> a[k] == s[k]
      decreases a.Length - r
    {
      var c := a[r];
      ghost var next := if c == '\\' && r + 1 < a.Length then r + 2 else r + 1;
      if c == '\\' && r + 1 < a.Length {
        c := Unescaped(a[r + 1]);
        r := r + 1;
      }
      Assoc(done, [c], Unescape(s, next));
      a[w] := c;
      r := r + 1;
      w := w + 1;
      done := done + [c];
    }
    return w;
  }

  // ---------------------------------------------------------------------
  // Columns
  // ---------------------------------------------------------------------

  /** The columns of t[i..], split at every TAB. */
  function Columns(t: string, i: nat): (r: seq<string>)
    requires i <= |t|
    ensures r != []
    decreases |t| - i
  {
    var k := FindChar(t, i, |t|, '\t');
    if k == |t| then [t[i..]] else [t[i..k]] + Columns(t, k + 1)
  }

  function Joined(cols: seq<string>, k: nat): string
    requires k < |cols|
    decreases |cols| - k
  {
    if k + 1 == |cols| then cols[k] else cols[k] + ("\t" + Joined(cols, k + 1))
  }

  lemma {:induction false} ColumnsOfJoined(t: string, i: nat, cols: seq<string>, k: nat)
    requires k < |cols| && (forall c :: c in cols ==> '\t' !in c)
    requires TextAt(t, i, Joined(cols, k)) && i + |Joined(cols, k)| == |t|
    ensures i <= |t| && Columns(t, i) == cols[k..]
    decreases |cols| - k
  {
    assert '\t' !in cols[k];
    if k + 1 == |cols| {
      FindCharPastText(t, i, |t|, '\t', cols[k]);
      TextAtSlice(t, i, cols[k]);
      assert t[i..] == t[i..|t|] && cols[k..] == [cols[k]];
    } else {
      var more := Joined(cols, k + 1);
      var j := i + |cols[k]|;
      TextAtJoin(t, i, cols[k], "\t" + more);
      TextAtJoin(t, j, "\t", more);
      TextAtHead(t, j, "\t");
      FindCharPastText(t, i, |t|, '\t', cols[k]);
      TextAtSlice(t, i, cols[k]);
      hide TextAt, FindChar, Joined;
      ColumnsOfJoined(t, j + 1, cols, k + 1);
      assert cols[k..] == [cols[k]] + cols[k + 1..];
    }
  }

  // ---------------------------------------------------------------------
  // Rows
  // ---------------------------------------------------------------------

  const FIELDS: nat := 6
  const GUARD_MAX: nat := 47

  /** The cached values of one message and the file state they were taken from. */
  datatype AnyRow = HdrRow(uid: u32, fields: seq<string>, size: nat, mtime: int, ctime: int)

  type HdrRow = r: AnyRow |
    |r.fields| == FIELDS && r.size < TWO64 && Int64(r.mtime) && Int64(r.ctime)
    witness HdrRow(0, ["", "", "", "", "", ""], 0, 0, 0)

  /** The guard columns as they should be written. */
  function GuardText(r: HdrRow): string {
    "\t" + (Digits(r.size) + ("\t" + (PrintInt(r.mtime) + ("\t" + PrintInt(r.ctime)))))
  }

  /** ... and as a 48-byte buffer holds them. */
  function GuardWritten(r: HdrRow): string {
    var g := GuardText(r);
    if |g| > GUARD_MAX then g[..GUARD_MAX] else g
  }

  /** Values from `k` on, each after a TAB, and then `rest`. */
  function FieldsText(fields: seq<string>, k: nat, rest: string): string
    requires k <= |fields|
    decreases |fields| - k
  {
    if k == |fields| then rest else "\t" + (Escape(fields[k]) + FieldsText(fields, k + 1, rest))
  }

  /** mail_hdrs_row. */
  function RowText(r: HdrRow): string {
    Digits(r.uid) + FieldsText(r.fields, 0, GuardWritten(r))
  }

  /** "%lld": the value clamped to 64 bits. */
  function ScanSigned(t: string): Option<int> {
    var j := SkipWhite(t, 0);
    var k := if j < |t| && (t[j] == '+' || t[j] == '-') then j + 1 else j;
    if !DigitAt(t, k) then None
    else
      var v := Number(t, k, 0);
      var n := if k > j && t[j] == '-' then 0 - v else v;
      Some(if n < -0x8000_0000_0000_0000 then -0x8000_0000_0000_0000
           else if n > 0x7fff_ffff_ffff_ffff then 0x7fff_ffff_ffff_ffff else n)
  }

  /** The uid column: digits only, a nonzero 32-bit number. */
  function UidColumn(t: string): (r: Option<u32>)
    ensures r.Some? ==> r.value > 0
  {
    if t != "" && DigitsEnd(t, 0) == |t| && 0 < Number(t, 0, 0) <= UINT32_MAX then Some(Number(t, 0, 0)) else None
  }

  /** One line of the file: exactly ten columns. */
  function ParseRow(line: string): Option<HdrRow> {
    var cols := Columns(line, 0);
    if |cols| != 10 then None
    else
      var uid, size, mt, ct := UidColumn(cols[0]), Scan(cols[7], 0), ScanSigned(cols[8]), ScanSigned(cols[9]);
      if uid.None? || size.None? || mt.None? || ct.None? then None
      else
        Some(HdrRow(uid.value,
          [Unescape(cols[1], 0), Unescape(cols[2], 0), Unescape(cols[3], 0),
           Unescape(cols[4], 0), Unescape(cols[5], 0), Unescape(cols[6], 0)],
          size.value.0, mt.value, ct.value))
  }

  /** White space, a sign, a number and no further digit: the number, clamped to 64
      bits. */
  lemma SignedColumn(t: string, gap: string, sign: string, n: nat)
    requires Blanks(gap) && (sign == "" || sign == "+" || sign == "-")
    requires TextAt(t, 0, gap) && TextAt(t, |gap|, sign) && TextAt(t, |gap| + |sign|, Digits(n))
    requires !DigitAt(t, |gap| + |sign| + |Digits(n)|)
    ensures var v := if sign == "-" then 0 - n else n;
            ScanSigned(t) == Some(if v < -0x8000_0000_0000_0000 then -0x8000_0000_0000_0000
                                  else if v > 0x7fff_ffff_ffff_ffff then 0x7fff_ffff_ffff_ffff else v)
  {
    var j, k := |gap|, |gap| + |sign|;
    hide Digits, Number, TextAt, SkipWhite;
    DigitsEndAfter(t, k, n);
    if sign != "" { TextAtHead(t, j, sign); }
    PastWhite(t, 0, gap);
  }

  /** No digit behind them: the row is not read. */
  lemma NoSignedColumn(t: string, gap: string, sign: string)
    requires Blanks(gap) && (sign == "" || sign == "+" || sign == "-")
    requires TextAt(t, 0, gap) && TextAt(t, |gap|, sign)
    requires var k := |gap| + |sign|;
             !DigitAt(t, k) && (sign == "" && k < |t| ==> !WhiteSpace(t[k]) && t[k] != '+' && t[k] != '-')
    ensures ScanSigned(t) == None
  {
    assert sign != "" ==> t[|gap| + 0] == sign[0];
    PastWhite(t, 0, gap);
    hide TextAt, SkipWhite;
  }

  lemma NonnegativeReads(n: nat)
    requires Int64(n)
    ensures ScanSigned(Digits(n)) == Some(n)
  {
    TextAtSelf(Digits(n));
    SignedColumn(Digits(n), "", "", n);
  }

  lemma NegativeReads(m: nat)
    requires Int64(0 - m)
    ensures ScanSigned("-" + Digits(m)) == Some(0 - m)
  {
    TextAtSelf("-" + Digits(m));
    TextAtJoin("-" + Digits(m), 0, "-", Digits(m));
    SignedColumn("-" + Digits(m), "", "-", m);
  }

  lemma SignedReads(n: int)
    requires Int64(n)
    ensures ScanSigned(PrintInt(n)) == Some(n)
  {
    if n < 0 { NegativeReads(-n); } else { NonnegativeReads(n); }
  }

  lemma UidReads(n: u32)
    requires n > 0
    ensures UidColumn(Digits(n)) == Some(n)
  {
    TextAtSelf(Digits(n));
    DigitsEndAfter(Digits(n), 0, n);
  }

  lemma SizeReads(n: nat)
    requires n < TWO64
    ensures Scan(Digits(n), 0).Some? && Scan(Digits(n), 0).value.0 == n
  {
    TextAtSelf(Digits(n));
    ScanDigits(Digits(n), 0, n);
  }

  // ---------------------------------------------------------------------
  // Rows round trip
  // ---------------------------------------------------------------------

  /** The columns of a row whose last one came out as `last`. */
  function RowColumns(r: HdrRow, last: string): (c: seq<string>)
    ensures |c| == 10
  {
    [Digits(r.uid), Escape(r.fields[0]), Escape(r.fields[1]), Escape(r.fields[2]), Escape(r.fields[3]),
     Escape(r.fields[4]), Escape(r.fields[5]), Digits(r.size), PrintInt(r.mtime), last]
  }

  lemma FieldColumn(r: HdrRow, last: string, k: nat)
    requires k < FIELDS
    ensures RowColumns(r, last)[k + 1] == Escape(r.fields[k])
  {
    hide Escape, Digits, PrintInt;
  }

  lemma {:induction false} FieldsJoin(r: HdrRow, last: string, k: nat)
    requires k <= FIELDS
    ensures FieldsText(r.fields, k, "\t" + Joined(RowColumns(r, last), 7)) == "\t" + Joined(RowColumns(r, last), k + 1)
    decreases FIELDS - k
  {
    hide Escape, RowColumns;
    if k < FIELDS {
      FieldsJoin(r, last, k + 1);
      FieldColumn(r, last, k);
    }
  }

  lemma RowIsJoined(r: HdrRow, last: string)
    requires GuardWritten(r) == "\t" + (Digits(r.size) + ("\t" + (PrintInt(r.mtime) + ("\t" + last))))
    ensures RowText(r) == Joined(RowColumns(r, last), 0)
  {
    hide GuardWritten, Digits, PrintInt, Escape;
    var cols := RowColumns(r, last);
    assert Joined(cols, 9) == last;
    assert Joined(cols, 8) == PrintInt(r.mtime) + ("\t" + last);
    assert Joined(cols, 7) == Digits(r.size) + ("\t" + (PrintInt(r.mtime) + ("\t" + last)));
    FieldsJoin(r, last, 0);
    hide FieldsText;
  }

  lemma NumbersAreOneColumn(n: int)
    ensures '\t' !in PrintInt(n) && (n >= 0 ==> '\t' !in Digits(n))
    ensures '\n' !in PrintInt(n) && (n >= 0 ==> '\n' !in Digits(n))
  {
  }

  /** Whatever the last column says is what is read for it. */
  lemma RowReads(r: HdrRow, last: string, ct: int)
    requires r.uid > 0 && '\t' !in last && Int64(ct) && ScanSigned(last) == Some(ct)
    requires GuardWritten(r) == "\t" + (Digits(r.size) + ("\t" + (PrintInt(r.mtime) + ("\t" + last))))
    ensures ParseRow(RowText(r)) == Some(r.(ctime := ct))
  {
    var cols, t := RowColumns(r, last), RowText(r);
    RowIsJoined(r, last);
    hide RowText, ScanSigned, Scan, UidColumn;
    forall c | c in cols ensures '\t' !in c {
      ColumnsPlain(r, last, c);
    }
    TextAtSelf(t);
    ColumnsOfJoined(t, 0, cols, 0);
    assert cols[0..] == cols;
    hide Joined, TextAt, Columns;
    ColumnsRead(r, last);
  }

  lemma ColumnsPlain(r: HdrRow, last: string, c: string)
    requires c in RowColumns(r, last) && '\t' !in last
    ensures '\t' !in c
  {
    NumbersAreOneColumn(r.uid);
    NumbersAreOneColumn(r.size);
    NumbersAreOneColumn(r.mtime);
    hide Digits, PrintInt, Escape;
    forall k | 0 <= k < FIELDS ensures '\t' !in Escape(r.fields[k]) {
      EscapedIsOneColumn(r.fields[k]);
    }
  }

  lemma ColumnsRead(r: HdrRow, last: string)
    requires r.uid > 0
    ensures var cols := RowColumns(r, last);
            && UidColumn(cols[0]) == Some(r.uid) && Scan(cols[7], 0).Some? && Scan(cols[7], 0).value.0 == r.size
            && ScanSigned(cols[8]) == Some(r.mtime)
            && r.fields == [Unescape(cols[1], 0), Unescape(cols[2], 0), Unescape(cols[3], 0),
                            Unescape(cols[4], 0), Unescape(cols[5], 0), Unescape(cols[6], 0)]
  {
    hide Digits, PrintInt, Escape, Unescape, ScanSigned, Scan, UidColumn;
    UidReads(r.uid);
    SizeReads(r.size);
    SignedReads(r.mtime);
    var f := r.fields;
    UnescapeEscape(f[0]);
    UnescapeEscape(f[1]);
    UnescapeEscape(f[2]);
    UnescapeEscape(f[3]);
    UnescapeEscape(f[4]);
    UnescapeEscape(f[5]);
    assert f == [f[0], f[1], f[2], f[3], f[4], f[5]];
  }

  lemma TakeJoin(a: string, b: string, n: nat)
    requires |a| <= n <= |a| + |b|
    ensures (a + b)[..n] == a + b[..n - |a|]
  {
  }

  lemma GuardLengths(r: HdrRow)
    ensures |Digits(r.size)| <= 20 && |PrintInt(r.mtime)| <= 20
  {
    TwentyDigits(r.size);
    NineteenDigits(if r.mtime < 0 then -r.mtime else r.mtime);
  }

  /** A guard text that is too long loses the end of its last column only. */
  lemma GuardCut(r: HdrRow) returns (cut: nat)
    requires |GuardText(r)| > GUARD_MAX
    ensures 4 <= cut < |PrintInt(r.ctime)|
    ensures GuardWritten(r)
         == "\t" + (Digits(r.size) + ("\t" + (PrintInt(r.mtime) + ("\t" + PrintInt(r.ctime)[..cut]))))
  {
    hide Digits, PrintInt;
    GuardLengths(r);
    var S, M, C := Digits(r.size), PrintInt(r.mtime), PrintInt(r.ctime);
    cut := GUARD_MAX - 3 - |S| - |M|;
    var c := "\t" + C;
    var d := "\t" + (M + c);
    TakeJoin("\t", S + d, GUARD_MAX);
    TakeJoin(S, d, GUARD_MAX - 1);
    TakeJoin("\t", M + c, GUARD_MAX - 1 - |S|);
    TakeJoin(M, c, GUARD_MAX - 2 - |S|);
    TakeJoin("\t", C, GUARD_MAX - 2 - |S| - |M|);
  }

  /** A time cut short is read as another time. */
  lemma CutReads(n: int, cut: nat) returns (x: int)
    requires Int64(n) && 4 <= cut < |PrintInt(n)|
    ensures '\t' !in PrintInt(n)[..cut] && Int64(x) && x != n && ScanSigned(PrintInt(n)[..cut]) == Some(x)
  {
    hide ScanSigned;
    NumbersAreOneColumn(n);
    if n < 0 {
      var m := DigitsCut(-n, cut - 1);
      TakeJoin("-", Digits(-n), cut);
      NegativeReads(m);
      x := -(m as int);
    } else {
      x := DigitsCut(n, cut);
      NonnegativeReads(x);
    }
  }

  ghost predicate Fits(r: HdrRow) {
    r.uid > 0 && |GuardText(r)| <= GUARD_MAX
  }

  /** A written row is read back exactly when its uid is nonzero and its guard
      columns fit the 48-byte buffer, whatever the cached values hold. */
  lemma RowRoundTripIff(r: HdrRow)
    ensures ParseRow(RowText(r)) == Some(r) <==> Fits(r)
  {
    if r.uid > 0 {
      if |GuardText(r)| <= GUARD_MAX {
        NumbersAreOneColumn(r.ctime);
        SignedReads(r.ctime);
        hide RowText, ParseRow, Digits, PrintInt, ScanSigned;
        RowReads(r, PrintInt(r.ctime), r.ctime);
      } else {
        hide RowText, ParseRow, Digits, PrintInt, ScanSigned;
        var cut := GuardCut(r);
        var x := CutReads(r.ctime, cut);
        RowReads(r, PrintInt(r.ctime)[..cut], x);
      }
    }
  }

  // ---------------------------------------------------------------------
  // The file
  // ---------------------------------------------------------------------

  function LinesText(rows: seq<HdrRow>, k: nat): string
    requires k <= |rows|
    decreases |rows| - k
  {
    if k == |rows| then "" else RowText(rows[k]) + ("\n" + LinesText(rows, k + 1))
  }

  /** mail_hdrs_save: the generation and one line per row. */
  function FileOf(uv: u32, rows: seq<HdrRow>): string {
    Digits(uv) + ("\n" + LinesText(rows, 0))
  }

  /** Rows from `i` on up to the first malformed line; empty lines are skipped. */
  function LoadLines(t: string, i: nat): seq<HdrRow>
    requires i <= |t|
    decreases |t| - i
  {
    if i == |t| then []
    else
      var nl := LineEnd(t, i);
      if nl == i then LoadLines(t, i + 1)
      else
        match ParseRow(t[i..nl])
        case None => []
        case Some(r) => [r] + if nl == |t| then [] else LoadLines(t, nl + 1)
  }

  /** An empty line is skipped, any other line that is no row ends the load. */
  lemma OtherLines(t: string, i: nat, line: string)
    requires TextAt(t, i, line) && '\n' !in line
    requires i + |line| < |t| ==> t[i + |line|] == '\n'
    ensures i <= |t|
    ensures line == "" ==> LoadLines(t, i) == if i == |t| then [] else LoadLines(t, i + 1)
    ensures line != "" && ParseRow(line) == None ==> LoadLines(t, i) == []
    ensures line != "" && ParseRow(line).Some? ==>
              LoadLines(t, i) == [ParseRow(line).value] + if i + |line| == |t| then [] else LoadLines(t, i + |line| + 1)
  {
    hide ParseRow, TextAt, LineEnd;
    LineIs(t, i, line);
  }

  lemma LineIs(t: string, i: nat, line: string)
    requires TextAt(t, i, line) && '\n' !in line
    requires i + |line| < |t| ==> t[i + |line|] == '\n'
    ensures i + |line| <= |t| && LineEnd(t, i) == i + |line| && t[i..i + |line|] == line
  {
    TextAtSlice(t, i, line);
    FindCharPastText(t, i, |t|, '\n', line);
  }

  /** mail_hdrs_load. */
  function LoadFile(t: string): (u32, seq<HdrRow>) {
    var nl := LineEnd(t, 0);
    if nl == |t| then (0, [])
    else
      var s := Scan(t, 0);
      (if s.Some? && s.value.0 <= UINT32_MAX then s.value.0 else 0, LoadLines(t, nl + 1))
  }

  /** A file without a line end holds nothing; one whose head is no 32-bit number is
      of generation 0. */
  lemma HeadMissing(t: string)
    ensures '\n' !in t ==> LoadFile(t) == (0, [])
    ensures Scan(t, 0) == None || Scan(t, 0).value.0 > UINT32_MAX ==> LoadFile(t).0 == 0
  {
    hide LoadLines, Scan;
  }

  /** A file without rows is its generation. */
  lemma HeadFormat(uv: u32)
    ensures FileOf(uv, []) == Digits(uv) + "\n"
  {
    hide Digits;
    NoMore("\n");
  }

  lemma NotInJoin(x: string, y: string, c: char)
    ensures c in x + y <==> c in x || c in y
  {
  }

  lemma {:induction false} FieldsOneLine(fields: seq<string>, k: nat, rest: string)
    requires k <= |fields| && '\n' !in rest
    ensures '\n' !in FieldsText(fields, k, rest)
    decreases |fields| - k
  {
    hide Escape;
    if k < |fields| {
      FieldsOneLine(fields, k + 1, rest);
      EscapedIsOneColumn(fields[k]);
      NotInJoin(Escape(fields[k]), FieldsText(fields, k + 1, rest), '\n');
      NotInJoin("\t", Escape(fields[k]) + FieldsText(fields, k + 1, rest), '\n');
    }
  }

  lemma RowIsOneLine(r: HdrRow)
    ensures '\n' !in RowText(r) && RowText(r) != ""
  {
    NumbersAreOneColumn(r.uid);
    NumbersAreOneColumn(r.size);
    NumbersAreOneColumn(r.mtime);
    NumbersAreOneColumn(r.ctime);
    hide Digits, PrintInt, FieldsText;
    assert '\n' !in GuardText(r);
    assert '\n' !in GuardWritten(r);
    FieldsOneLine(r.fields, 0, GuardWritten(r));
  }

  lemma LineLoads(t: string, i: nat, r: HdrRow)
    requires TextAt(t, i, RowText(r)) && i + |RowText(r)| < |t| && t[i + |RowText(r)|] == '\n'
    ensures var nl := i + |RowText(r)|;
            LoadLines(t, i) == match ParseRow(RowText(r)) case None => [] case Some(x) => [x] + LoadLines(t, nl + 1)
  {
    RowIsOneLine(r);
    hide RowText, ParseRow;
    FindCharPastText(t, i, |t|, '\n', RowText(r));
    TextAtSlice(t, i, RowText(r));
    hide TextAt;
  }

  ghost predicate AllFit(rows: seq<HdrRow>, k: nat) {
    forall j :: k <= j < |rows| ==> Fits(rows[j])
  }

  lemma FitNext(rows: seq<HdrRow>, k: nat)
    requires k <= |rows|
    ensures AllFit(rows, k) <==> k == |rows| || (Fits(rows[k]) && AllFit(rows, k + 1))
  {
  }

  /** Loading from `i` on gives the rows from `k` on. */
  ghost predicate GivesBack(t: string, i: nat, rows: seq<HdrRow>, k: nat) {
    i <= |t| && k <= |rows| && LoadLines(t, i) == rows[k..]
  }

  lemma {:induction false} LinesLoadIff(t: string, i: nat, rows: seq<HdrRow>, k: nat)
    requires k <= |rows| && TextAt(t, i, LinesText(rows, k)) && i + |LinesText(rows, k)| == |t|
    ensures GivesBack(t, i, rows, k) <==> AllFit(rows, k)
    decreases |rows| - k
  {
    hide TextAt, RowText, Fits, AllFit, LinesText, GivesBack;
    FitNext(rows, k);
    if k == |rows| {
      NoLines(t, i, rows);
    } else {
      LinesText1(t, i, rows, k);
      var nl := i + |RowText(rows[k])|;
      LinesLoadIff(t, nl + 1, rows, k + 1);
      LineIff(t, i, rows, k, nl);
    }
  }

  lemma NoLines(t: string, i: nat, rows: seq<HdrRow>)
    requires i + |LinesText(rows, |rows|)| == |t|
    ensures GivesBack(t, i, rows, |rows|)
  {
  }

  lemma LineIff(t: string, i: nat, rows: seq<HdrRow>, k: nat, nl: nat)
    requires k < |rows| && TextAt(t, i, RowText(rows[k])) && nl == i + |RowText(rows[k])| < |t| && t[nl] == '\n'
    ensures GivesBack(t, i, rows, k) <==> Fits(rows[k]) && GivesBack(t, nl + 1, rows, k + 1)
  {
    hide TextAt, RowText, ParseRow, Fits, LoadLines;
    LineLoads(t, i, rows[k]);
    RowRoundTripIff(rows[k]);
    FirstAndRest(rows, k, ParseRow(RowText(rows[k])), LoadLines(t, nl + 1), LoadLines(t, i));
  }

  /** The first line and the rest. */
  lemma LinesText1(t: string, i: nat, rows: seq<HdrRow>, k: nat)
    requires k < |rows| && TextAt(t, i, LinesText(rows, k)) && i + |LinesText(rows, k)| == |t|
    ensures var nl := i + |RowText(rows[k])|;
            && TextAt(t, i, RowText(rows[k])) && nl < |t| && t[nl] == '\n'
            && TextAt(t, nl + 1, LinesText(rows, k + 1)) && nl + 1 + |LinesText(rows, k + 1)| == |t|
  {
    hide TextAt, RowText;
    var r, more := rows[k], LinesText(rows, k + 1);
    assert LinesText(rows, k) == RowText(r) + ("\n" + more);
    hide LinesText;
    var nl := i + |RowText(r)|;
    TextAtJoin(t, i, RowText(r), "\n" + more);
    TextAtJoin(t, nl, "\n", more);
    TextAtHead(t, nl, "\n");
  }

  lemma FirstAndRest(rows: seq<HdrRow>, k: nat, x: Option<HdrRow>, rest: seq<HdrRow>, got: seq<HdrRow>)
    requires k < |rows| && got == match x case None => [] case Some(r) => [r] + rest
    ensures got == rows[k..] <==> x == Some(rows[k]) && rest == rows[k + 1..]
  {
    assert rows[k..] == [rows[k]] + rows[k + 1..];
    if x.Some? {
      assert ([x.value] + rest)[0] == x.value && ([x.value] + rest)[1..] == rest;
      assert rows[k..][0] == rows[k] && rows[k..][1..] == rows[k + 1..];
    }
  }

  /** Loading a saved header cache gives generation and rows back exactly when
      every row fits. */
  lemma SavedFileLoadsIff(uv: u32, rows: seq<HdrRow>)
    ensures LoadFile(FileOf(uv, rows)) == (uv, rows) <==> forall r :: r in rows ==> Fits(r)
  {
    hide Fits, LinesText, TextAt, Digits, LoadLines, Scan, GivesBack, FileOf, LineEnd, LoadFile;
    var t, d := FileOf(uv, rows), Digits(uv);
    FileHead(uv, rows);
    LinesLoadIff(t, |d| + 1, rows, 0);
    GivesAll(t, |d| + 1, rows);
    FileLoads(t, uv, |d|);
    assert AllFit(rows, 0) <==> forall r :: r in rows ==> Fits(r);
  }

  /** The generation's line, and the rows behind it. */
  lemma FileHead(uv: u32, rows: seq<HdrRow>)
    ensures var t, d := FileOf(uv, rows), Digits(uv);
            && |d| < |t| && LineEnd(t, 0) == |d| && Scan(t, 0).Some? && Scan(t, 0).value.0 == uv
            && TextAt(t, |d| + 1, LinesText(rows, 0)) && |d| + 1 + |LinesText(rows, 0)| == |t|
  {
    hide LinesText, TextAt, Digits;
    var t, d, more := FileOf(uv, rows), Digits(uv), LinesText(rows, 0);
    TextAtSelf(t);
    TextAtJoin(t, 0, d, "\n" + more);
    TextAtJoin(t, |d|, "\n", more);
    TextAtHead(t, |d|, "\n");
    NumbersAreOneColumn(uv);
    FindCharPastText(t, 0, |t|, '\n', d);
    ScanDigits(t, 0, uv);
    hide Scan;
  }

  lemma GivesAll(t: string, i: nat, rows: seq<HdrRow>)
    requires i <= |t|
    ensures GivesBack(t, i, rows, 0) <==> LoadLines(t, i) == rows
  {
    hide LoadLines;
    assert rows[0..] == rows;
  }

  lemma FileLoads(t: string, uv: u32, nl: nat)
    requires nl < |t| && LineEnd(t, 0) == nl && Scan(t, 0).Some? && Scan(t, 0).value.0 == uv
    ensures LoadFile(t) == (uv, LoadLines(t, nl + 1))
  {
    hide Scan, LoadLines, LineEnd;
  }

  // ---------------------------------------------------------------------
  // Handing rows to messages
  // ---------------------------------------------------------------------

  ghost predicate Ascending(rows: seq<HdrRow>) {
    forall i, j :: 0 <= i < j < |rows| ==> rows[i].uid <= rows[j].uid
  }

  ghost predicate AscendingUids(uids: seq<u32>) {
    forall i, j :: 0 <= i < j < |uids| ==> uids[i] <= uids[j]
  }

  /** The row of that uid behind `n` others, from row `k` on. */
  function NthRow(rows: seq<HdrRow>, k: nat, uid: u32, n: nat): (r: Option<HdrRow>)
    requires k <= |rows|
    ensures r.Some? ==> r.value in rows && r.value.uid == uid
    decreases |rows| - k
  {
    if k == |rows| then None
    else if rows[k].uid != uid then NthRow(rows, k + 1, uid, n)
    else if n > 0 then NthRow(rows, k + 1, uid, n - 1)
    else Some(rows[k])
  }

  /** Messages in `a..k` without a block that share the uid of message `k`. */
  function Before(uids: seq<u32>, block: seq<Option<HdrRow>>, a: nat, k: nat): (n: nat)
    requires a <= k < |uids| == |block|
    ensures (forall i :: a <= i < k ==> uids[i] != uids[k]) ==> n == 0
    decreases k - a
  {
    if a == k then 0
    else (if uids[a] == uids[k] && block[a].None? then 1 else 0) + Before(uids, block, a + 1, k)
  }

  /** Rows above the uid hold none of it. */
  lemma {:induction false} NoRow(rows: seq<HdrRow>, k: nat, uid: u32, n: nat)
    requires k <= |rows| && forall i :: k <= i < |rows| ==> rows[i].uid != uid
    ensures NthRow(rows, k, uid, n) == None
    decreases |rows| - k
  {
    if k < |rows| { NoRow(rows, k + 1, uid, n); }
  }

  /** What message `k` gets once the rows before `ri` and the messages before `mi`
      are dealt with. */
  function Due(rows: seq<HdrRow>, uids: seq<u32>, block: seq<Option<HdrRow>>, ri: nat, mi: nat, k: nat): Option<HdrRow>
    requires ri <= |rows| && mi <= k < |uids| == |block|
  {
    if block[k].Some? then block[k] else NthRow(rows, ri, uids[k], Before(uids, block, mi, k))
  }

  predicate Given(rows: seq<HdrRow>, uid: u32, was: Option<HdrRow>, now: Option<HdrRow>) {
    was.None? && now.Some? && now.value in rows && now.value.uid == uid
  }

  /** The join under way: the messages before `mi` have what is due to them, the
      others are as they were. */
  ghost predicate Progress(rows: seq<HdrRow>, uids: seq<u32>, was: seq<Option<HdrRow>>, now: seq<Option<HdrRow>>,
                           ri: nat, mi: nat) {
    && ri <= |rows| && mi <= |uids| == |was| == |now| && now[mi..] == was[mi..]
    && (forall k :: 0 <= k < mi ==> now[k] == Due(rows, uids, was, 0, 0, k))
    && (forall k :: mi <= k < |uids| ==> Due(rows, uids, was, ri, mi, k) == Due(rows, uids, was, 0, 0, k))
  }

  /** The two-pointer join of mbox_scan: the messages of one uid that have no header
      block get the rows of that uid, one each in order; the others keep theirs. A
      file whose rows are not in uid order still gives no message another's row. */
  method Hydrate(rows: seq<HdrRow>, uids: seq<u32>, block: array<Option<HdrRow>>)
    requires AscendingUids(uids) && block.Length == |uids|
    modifies block
    ensures Ascending(rows) ==>
              forall k :: 0 <= k < |uids| ==> block[k] == Due(rows, uids, old(block[..]), 0, 0, k)
    ensures forall k :: 0 <= k < |uids| ==> block[k] == old(block[k]) || Given(rows, uids[k], old(block[k]), block[k])
  {
    ghost var was := block[..];
    var ri: nat, mi: nat := 0, 0;
    while ri < |rows| && mi < |uids|
      invariant ri <= |rows| && mi <= |uids|
      invariant forall k :: 0 <= k < mi ==> block[k] == was[k] || Given(rows, uids[k], was[k], block[k])
      invariant forall k :: mi <= k < |uids| ==> block[k] == was[k]
      invariant Ascending(rows) ==> Progress(rows, uids, was, block[..], ri, mi)
      decreases |rows| - ri + |uids| - mi
    {
      hide Progress, Ascending, AscendingUids;
      var uid := uids[mi];
      ghost var now := block[..];
      if block[mi].Some? {
        if Ascending(rows) { SkipFull(rows, uids, was, now, ri, mi); }
        mi := mi + 1;
      } else if rows[ri].uid < uid {
        if Ascending(rows) { SkipRow(rows, uids, was, now, ri, mi); }
        ri := ri + 1;
      } else if rows[ri].uid > uid {
        if Ascending(rows) { SkipMessage(rows, uids, was, now, ri, mi); }
        mi := mi + 1;
      } else {
        if Ascending(rows) { TakeRow(rows, uids, was, now, ri, mi); }
        block[mi] := Some(rows[ri]);
        assert block[..] == now[mi := Some(rows[ri])];
        ri := ri + 1;
        mi := mi + 1;
      }
    }
    if Ascending(rows) { JoinEnds(rows, uids, was, block[..], ri, mi); }
    hide Progress, Due, Given;
  }

  lemma SkipFull(rows: seq<HdrRow>, uids: seq<u32>, was: seq<Option<HdrRow>>, now: seq<Option<HdrRow>>,
                 ri: nat, mi: nat)
    requires Progress(rows, uids, was, now, ri, mi) && mi < |uids| && now[mi].Some?
    ensures Progress(rows, uids, was, now, ri, mi + 1)
  {
    hide NthRow;
    Next(was, now, mi);
  }

  lemma SkipRow(rows: seq<HdrRow>, uids: seq<u32>, was: seq<Option<HdrRow>>, now: seq<Option<HdrRow>>,
                ri: nat, mi: nat)
    requires Progress(rows, uids, was, now, ri, mi) && ri < |rows| && mi < |uids|
    requires AscendingUids(uids) && rows[ri].uid < uids[mi]
    ensures Progress(rows, uids, was, now, ri + 1, mi)
  {
    hide Before;
    assert forall k :: mi <= k < |uids| ==> rows[ri].uid < uids[k];
  }

  lemma SkipMessage(rows: seq<HdrRow>, uids: seq<u32>, was: seq<Option<HdrRow>>, now: seq<Option<HdrRow>>,
                    ri: nat, mi: nat)
    requires Progress(rows, uids, was, now, ri, mi) && ri < |rows| && mi < |uids|
    requires Ascending(rows) && rows[ri].uid > uids[mi] && now[mi].None?
    ensures Progress(rows, uids, was, now, ri, mi + 1)
  {
    forall n: nat ensures NthRow(rows, ri, uids[mi], n) == None {
      NoRow(rows, ri, uids[mi], n);
    }
    hide NthRow;
    Next(was, now, mi);
  }

  lemma TakeRow(rows: seq<HdrRow>, uids: seq<u32>, was: seq<Option<HdrRow>>, now: seq<Option<HdrRow>>,
                ri: nat, mi: nat)
    requires Progress(rows, uids, was, now, ri, mi) && ri < |rows| && mi < |uids|
    requires rows[ri].uid == uids[mi] && now[mi].None?
    ensures Progress(rows, uids, was, now[mi := Some(rows[ri])], ri + 1, mi + 1)
  {
    Next(was, now, mi);
    Next(was, now[mi := Some(rows[ri])], mi);
  }

  lemma Next(was: seq<Option<HdrRow>>, now: seq<Option<HdrRow>>, mi: nat)
    requires mi < |was| == |now|
    ensures now[mi..] == was[mi..] ==> now[mi] == was[mi]
    ensures now[mi + 1..] == now[mi..][1..] && was[mi + 1..] == was[mi..][1..]
  {
    if now[mi..] == was[mi..] { assert now[mi..][0] == was[mi..][0]; }
  }

  lemma JoinEnds(rows: seq<HdrRow>, uids: seq<u32>, was: seq<Option<HdrRow>>, now: seq<Option<HdrRow>>,
                 ri: nat, mi: nat)
    requires Progress(rows, uids, was, now, ri, mi) && (ri == |rows| || mi == |uids|)
    ensures forall k :: 0 <= k < |uids| ==> now[k] == Due(rows, uids, was, 0, 0, k)
  {
    forall k | mi <= k < |uids| ensures now[k] == Due(rows, uids, was, ri, mi, k) {
      assert now[k] == now[mi..][k - mi] == was[k];
    }
  }

  /** Where uids are distinct, a message without a block gets the first row of its
      uid, and none exactly when there is no such row. */
  lemma DistinctDue(rows: seq<HdrRow>, uids: seq<u32>, block: seq<Option<HdrRow>>, k: nat)
    requires k < |uids| == |block| && block[k].None?
    requires forall i, j :: 0 <= i < j < |uids| ==> uids[i] != uids[j]
    ensures Due(rows, uids, block, 0, 0, k) == NthRow(rows, 0, uids[k], 0)
    ensures Due(rows, uids, block, 0, 0, k).None? <==> forall r :: r in rows ==> r.uid != uids[k]
  {
    FirstRow(rows, 0, uids[k]);
  }

  lemma {:induction false} FirstRow(rows: seq<HdrRow>, k: nat, uid: u32)
    requires k <= |rows|
    ensures NthRow(rows, k, uid, 0).None? <==> forall i :: k <= i < |rows| ==> rows[i].uid != uid
    decreases |rows| - k
  {
    if k < |rows| { FirstRow(rows, k + 1, uid); }
  }

  lemma {:induction false} PowerDigits(k: nat)
    ensures |Digits(Power10(k))| == k + 1
  {
    if k > 0 { PowerDigits(k - 1); }
  }

  /** A file of sixteen digits of size and a modification time of nineteen, changed
      at a time of ten, is one character too many. */
  const LONG_GUARD: HdrRow :=
    HdrRow(1, ["", "", "", "", "", ""], 1_000_000_000_000_000, 1_000_000_000_000_000_000, 1_000_000_000)

  lemma CutGuardExample()
    ensures |GuardText(LONG_GUARD)| == GUARD_MAX + 1 && ParseRow(RowText(LONG_GUARD)) != Some(LONG_GUARD)
  {
    ExampleLengths();
    hide Digits, PrintInt, RowText, ParseRow, GuardText;
    LongGuard(LONG_GUARD);
  }

  lemma ExampleLengths()
    ensures |Digits(LONG_GUARD.size)| == 16 && |PrintInt(LONG_GUARD.mtime)| == 19
    ensures |PrintInt(LONG_GUARD.ctime)| == 10
  {
    PowersOfTen();
    PowerDigits(15);
    PowerDigits(18);
    PowerDigits(9);
    hide Digits, Power10;
  }

  lemma LongGuard(r: HdrRow)
    requires |Digits(r.size)| + |PrintInt(r.mtime)| + |PrintInt(r.ctime)| > GUARD_MAX - 3
    ensures |GuardText(r)| == 3 + |Digits(r.size)| + |PrintInt(r.mtime)| + |PrintInt(r.ctime)|
    ensures ParseRow(RowText(r)) != Some(r)
  {
    hide Digits, PrintInt, RowText, ParseRow, Fits;
    GuardLength(r);
    NotFits(r);
    RowRoundTripIff(r);
  }

  lemma GuardLength(r: HdrRow)
    ensures |GuardText(r)| == 3 + |Digits(r.size)| + |PrintInt(r.mtime)| + |PrintInt(r.ctime)|
  {
    hide Digits, PrintInt;
  }

  lemma PowersOfTen()
    ensures Power10(9) == 1_000_000_000 && Power10(15) == 1_000_000_000_000_000
    ensures Power10(18) == 1_000_000_000_000_000_000
  {
    assert Power10(3) == 1_000 && Power10(6) == 1_000_000;
    assert Power10(9) == 1_000_000_000 && Power10(12) == 1_000_000_000_000;
  }

  lemma NotFits(r: HdrRow)
    requires |GuardText(r)| > GUARD_MAX
    ensures !Fits(r)
  {
  }

  // ---------------------------------------------------------------------
  // The format
  // ---------------------------------------------------------------------

  /** Tab, line feed, carriage return and backslash are escaped, and nothing else. */
  lemma EscapeFormat(c: char)
    ensures Escape([c])
         == if c == '\t' then "\\t" else if c == '\n' then "\\n" else if c == '\r' then "\\r"
            else if c == '\\' then "\\\\" else [c]
  {
    assert [c][1..] == "" && Escape("") == "";
  }

  /** Ten columns between tabs: uid, the six values, size and the two times. */
  lemma RowFormat(r: HdrRow)
    requires |GuardText(r)| <= GUARD_MAX
    ensures RowText(r)
         == Joined([Digits(r.uid), Escape(r.fields[0]), Escape(r.fields[1]), Escape(r.fields[2]), Escape(r.fields[3]),
                    Escape(r.fields[4]), Escape(r.fields[5]), Digits(r.size), PrintInt(r.mtime), PrintInt(r.ctime)], 0)
  {
    hide Digits, PrintInt, Escape, Joined;
    RowIsJoined(r, PrintInt(r.ctime));
  }

  /** Columns stand between tabs. */
  lemma JoinedFormat(cols: seq<string>, k: nat)
    requires k < |cols|
    ensures Joined(cols, k) == if k + 1 == |cols| then cols[k] else cols[k] + ("\t" + Joined(cols, k + 1))
  {
  }
}
