/** The text of the uidlist file: what a save writes and what a load reads. */
module UidlistFile {
  import opened Common
  import opened Uidlist

  const TWO64: nat := 0x1_0000_0000_0000_0000

  // ---------------------------------------------------------------------
  // Reading a number as sscanf does
  // ---------------------------------------------------------------------

  predicate WhiteSpace(c: char) {
    c == ' ' || 9 <= c as int <= 13
  }

  function SkipWhite(t: string, i: nat): (r: nat)
    requires i <= |t|
    ensures i <= r <= |t|
    decreases |t| - i
  {
    if i < |t| && WhiteSpace(t[i]) then SkipWhite(t, i + 1) else i
  }

  /** "%llu": white space, an optional sign, digits; too large a value is the
      largest one, and a minus sign negates modulo 2^64. Value and end. */
  function Scan(t: string, i: nat): (r: Option<(nat, nat)>)
    requires i <= |t|
    ensures r.Some? ==> r.value.0 < TWO64 && i < r.value.1 <= |t|
  {
    var j := SkipWhite(t, i);
    var k := if j < |t| && (t[j] == '+' || t[j] == '-') then j + 1 else j;
    if !DigitAt(t, k) then None
    else
      var v := Number(t, k, 0);
      var n := if v >= TWO64 then TWO64 - 1 else if k > j && t[j] == '-' then (TWO64 - v) % TWO64 else v;
      Some((n, DigitsEnd(t, k + 1)))
  }

  lemma ScanDigits(t: string, i: nat, n: nat)
    requires TextAt(t, i, Digits(n)) && !DigitAt(t, i + |Digits(n)|) && n < TWO64
    ensures i <= |t| && Scan(t, i) == Some((n, i + |Digits(n)|)) && DigitsEnd(t, i) == i + |Digits(n)|
  {
    DigitsEndAfter(t, i, n);
    hide Number, TextAt, Digits;
    assert SkipWhite(t, i) == i;
  }

  // ---------------------------------------------------------------------
  // Saving
  // ---------------------------------------------------------------------

  function MidText(mid: string): string {
    if mid == "" then "" else " " + mid
  }

  /** The part of a row after its base. */
  function RowTail(r: Row): string {
    Digits(r.modseq) + MidText(r.mid)
  }

  /** One row without its line end. */
  function RowText(r: Row): string {
    Digits(r.uid) + (" " + (r.base + (" " + RowTail(r))))
  }

  function LineText(r: Row): string {
    RowText(r) + "\n"
  }

  function RowsText(rows: seq<Row>, k: nat): string
    requires k <= |rows|
    decreases |rows| - k
  {
    if k == |rows| then "" else LineText(rows[k]) + RowsText(rows, k + 1)
  }

  function HeadText(tab: Table): string {
    Digits(tab.uidvalidity) + (" " + Digits(tab.uidnext))
  }

  function HeadLine(tab: Table): string {
    HeadText(tab) + "\n"
  }

  function FileText(tab: Table): string {
    HeadLine(tab) + RowsText(tab.rows, 0)
  }

  // ---------------------------------------------------------------------
  // Loading
  // ---------------------------------------------------------------------

  function LineEnd(t: string, i: nat): (r: nat)
    requires i <= |t|
    ensures i <= r <= |t| && (r < |t| ==> t[r] == '\n')
    ensures forall k :: i <= k < r ==> t[k] != '\n'
  {
    FindChar(t, i, |t|, '\n')
  }

  /** Modification sequence and Message-ID of a row whose base ends at `b`. */
  function LoadTail(t: string, b: nat, nl: nat): (nat, string)
    requires b <= nl <= |t|
  {
    if b == nl then (1, "")
    else
      match Scan(t, b + 1)
      case None => (1, "")
      case Some((ms, _)) =>
        var q := DigitsEnd(t, b + 1);
        if q < |t| && t[q] == ' ' && q + 1 < nl then (ms, t[q + 1..nl]) else (ms, "")
  }

  /** A row and the end of its line, or the place where the load stops. */
  datatype RowAt = NoRow | RowAt(row: Row, end: nat)

  /** The row at `i` and the end of its line; None where the load stops. */
  function LoadRow(t: string, i: nat): (r: RowAt)
    requires i <= |t|
    ensures r.RowAt? ==> i < r.end <= |t|
  {
    var s := Scan(t, i);
    if s.None? then NoRow
    else
      var nl := LineEnd(t, i);
      var j := DigitsEnd(t, i);
      if !(j < |t| && t[j] == ' ') || j + 1 > nl then NoRow
      else
        var b := FindChar(t, j + 1, nl, ' ');
        if b == j + 1 then NoRow
        else
          var (ms, mid) := LoadTail(t, b, nl);
          var uid := s.value.0;
          if uid == 0 || uid > UINT32_MAX then NoRow
          else RowAt(Row(t[j + 1..b], uid, ms, mid), nl)
  }

  /** Rows from `i` on, up to the first malformed one. */
  function LoadRows(t: string, i: nat): seq<Row>
    requires i <= |t|
    decreases |t| - i
  {
    if i == |t| then []
    else
      match LoadRow(t, i)
      case NoRow => []
      case RowAt(r, nl) => [r] + if nl == |t| then [] else LoadRows(t, nl + 1)
  }

  /** uidlist_load of a file's text; `uv` and `un` stand where the head is unreadable. */
  function Load(t: string, uv: u32, un: u32): Table {
    var nl := LineEnd(t, 0);
    var rows := if nl == |t| then [] else LoadRows(t, nl + 1);
    match Scan(t, 0)
    case None => Table(uv, un, rows)
    case Some((a, n)) =>
      match Scan(t, n)
      case None => Table(uv, un, rows)
      case Some((b, _)) =>
        Table(if a > UINT32_MAX then 0 else a, if b > UINT32_MAX then 1 else b, rows)
  }

  // ---------------------------------------------------------------------
  // Round trip
  // ---------------------------------------------------------------------

  /** A row a save can write and a load can read: a base that is one word, a
      Message-ID on one line, a nonzero uid, a 64-bit modification sequence. */
  predicate Writable(r: Row) {
    && r.base != "" && ' ' !in r.base && '\n' !in r.base && '\n' !in r.mid
    && r.uid > 0 && r.modseq < TWO64
  }

  lemma DigitsPlain(n: nat)
    ensures '\n' !in Digits(n) && ' ' !in Digits(n)
  {
  }

  lemma TailLoads(t: string, b: nat, nl: nat, r: Row)
    requires Writable(r) && nl <= |t| && (nl < |t| ==> t[nl] == '\n')
    requires TextAt(t, b, " " + RowTail(r)) && b + 1 + |RowTail(r)| == nl
    ensures LoadTail(t, b, nl) == (r.modseq, r.mid)
  {
    hide TextAt, Digits, Scan, DigitsEnd;
    var d := Digits(r.modseq);
    TextAtJoin(t, b, " ", RowTail(r));
    TextAtJoin(t, b + 1, d, MidText(r.mid));
    var q := b + 1 + |d|;
    if r.mid != "" {
      TextAtJoin(t, q, " ", r.mid);
      TextAtHead(t, q, " ");
      TextAtSlice(t, q + 1, r.mid);
    }
    ScanDigits(t, b + 1, r.modseq);
  }

  /** A row's line has no other line end. */
  lemma RowLine(t: string, i: nat, r: Row)
    requires Writable(r) && TextAt(t, i, LineText(r))
    ensures TextAt(t, i, RowText(r)) && i + |RowText(r)| < |t| && LineEnd(t, i) == i + |RowText(r)|
  {
    TextAtJoin(t, i, RowText(r), "\n");
    TextAtHead(t, i + |RowText(r)|, "\n");
    DigitsPlain(r.uid);
    DigitsPlain(r.modseq);
    hide TextAt;
    assert '\n' !in RowText(r);
    FindCharPastText(t, i, |t|, '\n', RowText(r));
  }

  lemma UidLoads(t: string, i: nat, r: Row)
    requires TextAt(t, i, RowText(r))
    ensures var j := i + |Digits(r.uid)|;
            && i <= j < |t| && t[j] == ' ' && DigitsEnd(t, i) == j
            && Scan(t, i) == Some((r.uid, j)) && TextAt(t, j + 1, r.base + (" " + RowTail(r)))
  {
    hide TextAt, Digits, RowTail, Scan;
    var d := Digits(r.uid);
    var rest := r.base + (" " + RowTail(r));
    TextAtJoin(t, i, d, " " + rest);
    TextAtJoin(t, i + |d|, " ", rest);
    TextAtHead(t, i + |d|, " ");
    ScanDigits(t, i, r.uid);
  }

  lemma BaseLoads(t: string, j: nat, nl: nat, r: Row)
    requires Writable(r) && TextAt(t, j, r.base + (" " + RowTail(r))) && j + |r.base + (" " + RowTail(r))| == nl < |t|
    requires t[nl] == '\n'
    ensures var b := j + |r.base|;
            && FindChar(t, j, nl, ' ') == b && t[j..b] == r.base && LoadTail(t, b, nl) == (r.modseq, r.mid)
  {
    hide TextAt, RowTail, LoadTail;
    var b := j + |r.base|;
    TextAtJoin(t, j, r.base, " " + RowTail(r));
    TextAtHead(t, b, " " + RowTail(r));
    FindCharPastText(t, j, nl, ' ', r.base);
    TextAtSlice(t, j, r.base);
    TailLoads(t, b, nl, r);
  }

  lemma RowLoads(t: string, i: nat, r: Row)
    requires Writable(r) && TextAt(t, i, LineText(r))
    ensures i + |LineText(r)| <= |t| && LoadRow(t, i) == RowAt(r, i + |LineText(r)| - 1)
  {
    hide TextAt, RowTail, LoadTail, Digits, Scan;
    RowLine(t, i, r);
    UidLoads(t, i, r);
    BaseLoads(t, i + |Digits(r.uid)| + 1, i + |RowText(r)|, r);
  }

  lemma {:induction false} RowsLoad(t: string, i: nat, rows: seq<Row>, k: nat)
    requires k <= |rows| && (forall r :: r in rows ==> Writable(r))
    requires TextAt(t, i, RowsText(rows, k)) && i + |RowsText(rows, k)| == |t|
    ensures LoadRows(t, i) == rows[k..]
    decreases |rows| - k
  {
    hide LineText, TextAt, LoadRow, LoadRows, RowsText, Writable;
    if k == |rows| {
      NoRows(t, i, rows);
    } else {
      var x, more := LineText(rows[k]), RowsText(rows, k + 1);
      RowsUnfold(rows, k);
      TextAtJoin(t, i, x, more);
      assert rows[k] in rows;
      RowLoads(t, i, rows[k]);
      RowsLoad(t, i + |x|, rows, k + 1);
      LoadNext(t, i, rows[k], i + |x| - 1, rows[k + 1..]);
      TailFrom(rows, k);
    }
  }

  lemma NoRows(t: string, i: nat, rows: seq<Row>)
    requires i + |RowsText(rows, |rows|)| == |t|
    ensures i == |t| && LoadRows(t, i) == [] && rows[|rows|..] == []
  {
  }

  lemma RowsUnfold(rows: seq<Row>, k: nat)
    requires k < |rows|
    ensures RowsText(rows, k) == LineText(rows[k]) + RowsText(rows, k + 1)
  {
  }

  lemma TailFrom(rows: seq<Row>, k: nat)
    requires k < |rows|
    ensures rows[k..] == [rows[k]] + rows[k + 1..]
  {
  }

  lemma LoadNext(t: string, i: nat, r: Row, nl: nat, more: seq<Row>)
    requires i <= nl < |t| && LoadRow(t, i) == RowAt(r, nl) && LoadRows(t, nl + 1) == more
    ensures LoadRows(t, i) == [r] + more
  {
    hide LoadRow;
  }

  lemma HeadLoads(t: string, tab: Table)
    requires TextAt(t, 0, HeadLine(tab))
    ensures LineEnd(t, 0) + 1 == |HeadLine(tab)| <= |t|
    ensures var s := Scan(t, 0);
            s.Some? && s.value.0 == tab.uidvalidity
            && Scan(t, s.value.1).Some? && Scan(t, s.value.1).value.0 == tab.uidnext
  {
    var h, d, e := HeadText(tab), Digits(tab.uidvalidity), Digits(tab.uidnext);
    TextAtJoin(t, 0, h, "\n");
    TextAtHead(t, |h|, "\n");
    DigitsPlain(tab.uidvalidity);
    DigitsPlain(tab.uidnext);
    assert '\n' !in h;
    FindCharPastText(t, 0, |t|, '\n', h);
    TextAtJoin(t, 0, d, " " + e);
    TextAtJoin(t, |d|, " ", e);
    TextAtHead(t, |d|, " ");
    hide TextAt, Digits;
    ScanDigits(t, 0, tab.uidvalidity);
    ScanDigits(t, |d| + 1, tab.uidnext);
    ScanPastSpace(t, |d|);
    hide Scan;
  }

  lemma ScanPastSpace(t: string, i: nat)
    requires i < |t| && t[i] == ' '
    ensures Scan(t, i).Some? == Scan(t, i + 1).Some?
    ensures Scan(t, i).Some? ==> Scan(t, i) == Scan(t, i + 1)
  {
  }

  lemma LoadHead(t: string, tab: Table, uv: u32, un: u32, a: (nat, nat), b: (nat, nat))
    requires LineEnd(t, 0) < |t| && LoadRows(t, LineEnd(t, 0) + 1) == tab.rows
    requires Scan(t, 0) == Some(a) && a.0 == tab.uidvalidity && a.1 <= |t|
    requires Scan(t, a.1) == Some(b) && b.0 == tab.uidnext
    ensures Load(t, uv, un) == tab
  {
    hide Scan, LoadRows, LineEnd;
  }

  lemma LoadSaved(tab: Table, uv: u32, un: u32)
    requires forall r :: r in tab.rows ==> Writable(r)
    ensures Load(FileText(tab), uv, un) == tab
  {
    hide HeadLine, RowsText, TextAt, Scan, LineEnd, Writable, LoadRows, Load;
    var t := FileText(tab);
    TextAtSelf(t);
    TextAtJoin(t, 0, HeadLine(tab), RowsText(tab.rows, 0));
    assert |t| == |HeadLine(tab)| + |RowsText(tab.rows, 0)|;
    hide FileText;
    RowsLoad(t, |HeadLine(tab)|, tab.rows, 0);
    assert tab.rows[0..] == tab.rows;
    HeadLoads(t, tab);
    var a := Scan(t, 0).value;
    LoadHead(t, tab, uv, un, a, Scan(t, a.1).value);
  }

  lemma TailIsWritable(t: string, b: nat, nl: nat, i: nat)
    requires i <= b <= nl <= |t| && forall k :: i <= k < nl ==> t[k] != '\n'
    ensures var (ms, mid) := LoadTail(t, b, nl);
            ms < TWO64 && '\n' !in mid
  {
    hide Scan;
  }

  lemma LoadedIsWritable(t: string, i: nat)
    requires i <= |t| && LoadRow(t, i).RowAt?
    ensures Writable(LoadRow(t, i).row)
  {
    hide Scan, LoadTail;
    var nl, j := LineEnd(t, i), DigitsEnd(t, i);
    var b := FindChar(t, j + 1, nl, ' ');
    TailIsWritable(t, b, nl, i);
  }

  /** Whatever the file holds, every row a load returns is one a save can write. */
  lemma {:induction false} LoadedRowsAreWritable(t: string, i: nat)
    requires i <= |t|
    ensures forall r :: r in LoadRows(t, i) ==> Writable(r)
    decreases |t| - i
  {
    hide LoadRow, Writable;
    if i < |t| && LoadRow(t, i).RowAt? {
      LoadedIsWritable(t, i);
      var nl := LoadRow(t, i).end;
      if nl < |t| { LoadedRowsAreWritable(t, nl + 1); }
    }
  }

  /** Loading a saved uidlist gives the table back exactly when every base is one
      word, every Message-ID one line and every uid nonzero. */
  lemma LoadSavedIff(tab: Table, uv: u32, un: u32)
    ensures Load(FileText(tab), uv, un) == tab <==> forall r :: r in tab.rows ==> Writable(r)
  {
    var t := FileText(tab);
    hide FileText, Scan, Writable, LoadRows;
    if forall r :: r in tab.rows ==> Writable(r) {
      LoadSaved(tab, uv, un);
    }
    if Load(t, uv, un) == tab {
      var nl := LineEnd(t, 0);
      if nl < |t| { LoadedRowsAreWritable(t, nl + 1); }
    }
  }

  /** With `rows` read before `p`, the load comes to `whole`. */
  ghost predicate Leads(rows: seq<Row>, t: string, p: nat, whole: seq<Row>)
    requires p <= |t|
  {
    rows + LoadRows(t, p) == whole
  }

  lemma LeadsFirst(t: string, p: nat)
    requires p <= |t|
    ensures Leads([], t, p, LoadRows(t, p))
  {
  }

  lemma LeadsLast(rows: seq<Row>, t: string, p: nat, whole: seq<Row>)
    requires p == |t| && Leads(rows, t, p, whole)
    ensures rows == whole
  {
  }

  lemma LeadsNext(rows: seq<Row>, t: string, p: nat, whole: seq<Row>)
    requires p < |t| && Leads(rows, t, p, whole)
    ensures match LoadRow(t, p)
            case NoRow => rows == whole
            case RowAt(r, nl) => if nl == |t| then rows + [r] == whole else Leads(rows + [r], t, nl + 1, whole)
  {
    hide LoadRow;
    var x := LoadRow(t, p);
    if x.RowAt? && x.end < |t| {
      assert LoadRows(t, p) == [x.row] + LoadRows(t, x.end + 1);
      hide LoadRows;
      Assoc(rows, [x.row], LoadRows(t, x.end + 1));
    }
  }

  /** uidlist_load's loop. */
  method LoadLoop(t: string, start: nat) returns (rows: seq<Row>)
    requires start <= |t|
    ensures rows == LoadRows(t, start)
  {
    hide LoadRow, LoadRows, Leads;
    var p := start;
    rows := [];
    ghost var whole := LoadRows(t, p);
    LeadsFirst(t, p);
    while p < |t|
      invariant start <= p <= |t| && Leads(rows, t, p, whole)
    {
      var r := LoadRow(t, p);
      LeadsNext(rows, t, p, whole);
      if r.NoRow? { return; }
      rows := rows + [r.row];
      if r.end == |t| { return; }
      p := r.end + 1;
    }
    LeadsLast(rows, t, p, whole);
  }

  /** A base of two words is not read back. */
  lemma SpacedBaseExample(uv: u32, un: u32)
    ensures var tab := Table(7, 2, [Row("a b", 1, 2, "")]);
            Load(FileText(tab), uv, un) != tab
  {
    var r := Row("a b", 1, 2, "");
    var tab := Table(7, 2, [r]);
    assert r.base[1] == ' ';
    assert r in tab.rows && !Writable(r);
    LoadSavedIff(tab, uv, un);
  }

  // ---------------------------------------------------------------------
  // The format
  // ---------------------------------------------------------------------

  /** The first line: generation and counter. */
  lemma HeadFormat(uv: u32, un: u32)
    ensures FileText(Table(uv, un, [])) == Digits(uv) + " " + Digits(un) + "\n"
  {
    hide Digits;
  }

  lemma LineFormat(r: Row)
    ensures LineText(r)
         == Digits(r.uid) + " " + r.base + " " + Digits(r.modseq) + (if r.mid == "" then "" else " " + r.mid) + "\n"
  {
    hide Digits;
  }

  /** One line for each row: uid, base, modseq, and the Message-ID if there is one. */
  lemma RowFormat(tab: Table, r: Row)
    ensures FileText(tab.(rows := tab.rows + [r])) == FileText(tab) + LineText(r)
    ensures LineText(r)
         == Digits(r.uid) + " " + r.base + " " + Digits(r.modseq) + (if r.mid == "" then "" else " " + r.mid) + "\n"
  {
    hide Digits, LineText, RowsText;
    LineFormat(r);
    RowsGrow(tab.rows, r, 0);
    Assoc(HeadLine(tab), RowsText(tab.rows, 0), LineText(r));
  }

  lemma {:induction false} RowsGrow(rows: seq<Row>, r: Row, k: nat)
    requires k <= |rows|
    ensures RowsText(rows + [r], k) == RowsText(rows, k) + LineText(r)
    decreases |rows| - k
  {
    hide LineText;
    if k < |rows| {
      RowsGrow(rows, r, k + 1);
      assert (rows + [r])[k] == rows[k];
      Assoc(LineText(rows[k]), RowsText(rows, k + 1), LineText(r));
    } else {
      assert RowsText(rows + [r], k + 1) == "";
      NoMore(LineText(r));
    }
  }

  // ---------------------------------------------------------------------
  // Texts a save does not write
  // ---------------------------------------------------------------------

  /** Spaces, tabs, line ends and the two other blanks of C. */
  ghost predicate Blanks(gap: string) {
    forall k :: 0 <= k < |gap| ==>
      || gap[k] == ' ' || gap[k] == '\t' || gap[k] == '\n' || gap[k] == '\r'
      || gap[k] as int == 11 || gap[k] as int == 12
  }

  /** White space, a sign, a number and no further digit: the number is read modulo
      2^64, the largest one standing for all beyond. */
  lemma SignedScan(t: string, i: nat, gap: string, sign: string, n: nat)
    requires Blanks(gap) && (sign == "" || sign == "+" || sign == "-")
    requires TextAt(t, i, gap) && TextAt(t, i + |gap|, sign) && TextAt(t, i + |gap| + |sign|, Digits(n))
    requires !DigitAt(t, i + |gap| + |sign| + |Digits(n)|)
    ensures var e := i + |gap| + |sign| + |Digits(n)|;
            && i <= |t| && e <= |t|
            && Scan(t, i) == Some((if n >= TWO64 then TWO64 - 1 else if sign == "-" && n > 0 then TWO64 - n else n, e))
  {
    var j, k := i + |gap|, i + |gap| + |sign|;
    hide Digits, Number, TextAt, SkipWhite;
    DigitsEndAfter(t, k, n);
    if sign != "" { TextAtHead(t, j, sign); }
    PastWhite(t, i, gap);
  }

  lemma {:induction false} PastWhite(t: string, i: nat, gap: string)
    requires Blanks(gap) && TextAt(t, i, gap)
    requires i + |gap| < |t| ==> !WhiteSpace(t[i + |gap|])
    ensures i <= |t| && SkipWhite(t, i) == i + |gap|
    decreases |gap|
  {
    if gap != "" {
      assert t[i + 0] == gap[0];
      forall k | 0 <= k < |gap| - 1 ensures t[i + 1 + k] == gap[1..][k] { assert t[i + (k + 1)] == gap[k + 1]; }
      PastWhite(t, i + 1, gap[1..]);
    }
  }

  /** No digit behind them: there is no number. */
  lemma NoScan(t: string, i: nat, gap: string, sign: string)
    requires Blanks(gap) && (sign == "" || sign == "+" || sign == "-")
    requires TextAt(t, i, gap) && TextAt(t, i + |gap|, sign)
    requires var k := i + |gap| + |sign|;
             !DigitAt(t, k) && (sign == "" && k < |t| ==> !WhiteSpace(t[k]) && t[k] != '+' && t[k] != '-')
    ensures i <= |t| && Scan(t, i) == None
  {
    assert sign != "" ==> t[i + |gap| + 0] == sign[0];
    PastWhite(t, i, gap);
    hide TextAt, SkipWhite;
  }

  /** A line of an older file, uid and base alone, is a row of modseq 1. */
  lemma OldRowLoads(t: string, i: nat, uid: u32, base: string)
    requires uid > 0 && base != "" && ' ' !in base && '\n' !in base
    requires TextAt(t, i, Digits(uid) + (" " + base))
    requires var e := i + |Digits(uid)| + 1 + |base|; e < |t| ==> t[e] == '\n'
    ensures i <= |t| && LoadRow(t, i) == RowAt(Row(base, uid, 1, ""), i + |Digits(uid)| + 1 + |base|)
  {
    hide TextAt, Digits, Scan;
    UidOfLine(t, i, uid, base);
    var j := i + |Digits(uid)| + 1;
    FindCharPastText(t, j, j + |base|, ' ', base);
    TextAtSlice(t, j, base);
  }

  /** The parts of a line of a uid and a text. */
  lemma UidOfLine(t: string, i: nat, n: nat, x: string)
    requires TextAt(t, i, Digits(n) + (" " + x)) && '\n' !in x && n < TWO64
    requires var e := i + |Digits(n)| + 1 + |x|; e < |t| ==> t[e] == '\n'
    ensures var j := i + |Digits(n)|;
            && j + 1 + |x| <= |t| && t[j] == ' ' && DigitsEnd(t, i) == j && Scan(t, i) == Some((n, j))
            && TextAt(t, j + 1, x) && LineEnd(t, i) == j + 1 + |x|
  {
    hide TextAt, Digits, Scan;
    var d := Digits(n);
    TextAtJoin(t, i, d, " " + x);
    TextAtJoin(t, i + |d|, " ", x);
    TextAtHead(t, i + |d|, " ");
    TextAtEnd(t, i + |d| + 1, x);
    DigitsPlain(n);
    ScanDigits(t, i, n);
    assert '\n' !in d + (" " + x);
    FindCharPastText(t, i, |t|, '\n', d + (" " + x));
  }

  /** The load stops at a line whose uid is 0 or no 32-bit number, whatever follows
      it, at a number without a space behind it, and at an empty base. */
  lemma StopsAtLine(t: string, i: nat, n: nat, x: string)
    requires TextAt(t, i, Digits(n) + (" " + x)) && '\n' !in x && n < TWO64
    requires var e := i + |Digits(n)| + 1 + |x|; e < |t| ==> t[e] == '\n'
    requires n == 0 || n > UINT32_MAX || x == "" || x[0] == ' '
    ensures i <= |t| && LoadRow(t, i) == NoRow
  {
    hide TextAt, Digits, Scan, LoadTail;
    UidOfLine(t, i, n, x);
    var j := i + |Digits(n)| + 1;
    if x != "" { TextAtHead(t, j, x); }
  }

  lemma StopsAtNumber(t: string, i: nat, n: nat)
    requires TextAt(t, i, Digits(n)) && n < TWO64
    requires var e := i + |Digits(n)|; e < |t| ==> !IsDigit(t[e]) && t[e] != ' '
    ensures i <= |t| && LoadRow(t, i) == NoRow
  {
    ScanDigits(t, i, n);
    hide TextAt, Digits, Scan, LoadTail;
  }

  /** What follows a base and is no number gives the row modseq 1 and no Message-ID. */
  lemma BadTailLoads(t: string, i: nat, uid: u32, base: string, x: string)
    requires uid > 0 && base != "" && ' ' !in base && '\n' !in base && '\n' !in x && x != ""
    requires !WhiteSpace(x[0]) && x[0] != '+' && x[0] != '-' && !IsDigit(x[0])
    requires TextAt(t, i, Digits(uid) + (" " + (base + (" " + x))))
    requires var e := i + |Digits(uid)| + 2 + |base| + |x|; e < |t| ==> t[e] == '\n'
    ensures i <= |t| && LoadRow(t, i) == RowAt(Row(base, uid, 1, ""), i + |Digits(uid)| + 2 + |base| + |x|)
  {
    hide TextAt, Digits, Scan, LoadTail, LineEnd, FindChar, DigitsEnd;
    UidOfLine(t, i, uid, base + (" " + x));
    var j := i + |Digits(uid)| + 1;
    var b := j + |base|;
    TextAtJoin(t, j, base, " " + x);
    TextAtJoin(t, b, " ", x);
    TextAtHead(t, b, " ");
    TextAtHead(t, b + 1, x);
    FindCharPastText(t, j, b + 1 + |x|, ' ', base);
    TextAtSlice(t, j, base);
    NoTextAt(t, b + 1);
    NoScan(t, b + 1, "", "");
    TailIsNone(t, b, b + 1 + |x|);
  }

  lemma TailIsNone(t: string, b: nat, nl: nat)
    requires b <= nl <= |t| && (b < nl ==> Scan(t, b + 1) == None)
    ensures LoadTail(t, b, nl) == (1, "")
  {
  }

  lemma NoTextAt(t: string, i: nat)
    requires i <= |t|
    ensures TextAt(t, i, "")
  {
  }

  /** A head of two numbers: a generation beyond 32 bits counts as none, a counter
      beyond them as 1. */
  lemma HeadReads(t: string, uv: u32, un: u32, a: nat, b: nat)
    requires TextAt(t, 0, Digits(a) + (" " + Digits(b))) && a < TWO64 && b < TWO64
    requires !DigitAt(t, |Digits(a)| + 1 + |Digits(b)|)
    ensures Load(t, uv, un).uidvalidity == if a > UINT32_MAX then 0 else a
    ensures Load(t, uv, un).uidnext == if b > UINT32_MAX then 1 else b
  {
    hide TextAt, Digits, Load, Scan, DigitsEnd;
    var d := Digits(a);
    TextAtJoin(t, 0, d, " " + Digits(b));
    TextAtJoin(t, |d|, " ", Digits(b));
    TextAtHead(t, |d|, " ");
    assert !IsDigit(' ');
    ScanDigits(t, 0, a);
    ScanDigits(t, |d| + 1, b);
    ScanPastSpace(t, |d|);
    HeadIs(t, uv, un, (a, |d|), (b, |d| + 1 + |Digits(b)|));
  }

  lemma HeadIs(t: string, uv: u32, un: u32, a: (nat, nat), b: (nat, nat))
    requires Scan(t, 0) == Some(a) && a.1 <= |t| && Scan(t, a.1) == Some(b)
    ensures Load(t, uv, un).uidvalidity == if a.0 > UINT32_MAX then 0 else a.0
    ensures Load(t, uv, un).uidnext == if b.0 > UINT32_MAX then 1 else b.0
  {
    hide LoadRows, LineEnd, Scan;
  }

  /** A head without two numbers leaves both as they were. */
  lemma HeadKeeps(t: string, uv: u32, un: u32)
    requires Scan(t, 0).Some? ==> Scan(t, Scan(t, 0).value.1) == None
    ensures Load(t, uv, un).uidvalidity == uv && Load(t, uv, un).uidnext == un
  {
    hide LoadRows;
  }
}
