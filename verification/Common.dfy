/** Types shared by the models of the mail store, the IMAP engine and the
    message transformations. */
module Common {

  datatype Option<+T> = None | Some(value: T)

  const UINT32_MAX: int := 0xFFFF_FFFF

  /** The C type uint32_t. */
  type u32 = x: int | 0 <= x <= 0xFFFF_FFFF

  /** Unsigned 32-bit addition: the result is reduced modulo 2^32. */
  function Add32(x: u32, y: nat): u32 {
    (x + y) % 0x1_0000_0000
  }

  /** No element occurs twice. */
  ghost predicate Distinct<T>(s: seq<T>) {
    forall i, j :: 0 <= i < j < |s| ==> s[i] != s[j]
  }

  /** A duplicate-free sequence has as many elements as its set. */
  lemma {:induction false} DistinctCardinality<T>(s: seq<T>)
    requires Distinct(s)
    ensures |set x | x in s| == |s|
  {
    if s != [] {
      var front, last := s[..|s| - 1], s[|s| - 1];
      DistinctCardinality(front);
      assert (set x | x in s) == (set x | x in front) + {last};
      assert last !in front;
    }
  }

  /** The text `x` stands at offset `n` of `v`. */
  ghost predicate TextAt(v: string, n: nat, x: string) {
    n + |x| <= |v| && forall k :: 0 <= k < |x| ==> v[n + k] == x[k]
  }

  lemma TextAtJoin(v: string, n: nat, x: string, y: string)
    ensures TextAt(v, n, x + y) <==> TextAt(v, n, x) && TextAt(v, n + |x|, y)
  {
    if TextAt(v, n, x + y) {
      assert forall k :: 0 <= k < |x| ==> (x + y)[k] == x[k];
      forall k | 0 <= k < |y| ensures v[n + |x| + k] == y[k] {
        assert v[n + (|x| + k)] == (x + y)[|x| + k];
      }
    }
    if TextAt(v, n, x) && TextAt(v, n + |x|, y) {
      forall k | 0 <= k < |x + y| ensures v[n + k] == (x + y)[k] {
        assert k >= |x| ==> v[n + |x| + (k - |x|)] == y[k - |x|];
      }
    }
  }

  /** Decimal digits of a natural number. */
  function Digits(n: nat): (r: string)
    ensures |r| > 0 && forall k :: 0 <= k < |r| ==> '0' <= r[k] <= '9'
  {
    if n < 10 then [('0' as int + n) as char] else Digits(n / 10) + [('0' as int + n % 10) as char]
  }

  /** Offset just past the header block, blank line included: the first empty CRLF
      line, else the first empty LF line, else everything. */
  function HeaderEnd(s: string): (r: nat)
    ensures r <= |s|
  {
    var i := CrLfEnd(s, 0);
    if i <= |s| then i else var j := LfEnd(s, 0); if j <= |s| then j else |s|
  }

  function CrLfEnd(s: string, i: nat): nat
    requires i <= |s|
    decreases |s| - i
  {
    if i + 4 > |s| then |s| + 1 else if s[i..i + 4] == "\r\n\r\n" then i + 4 else CrLfEnd(s, i + 1)
  }

  function LfEnd(s: string, i: nat): nat
    requires i <= |s|
    decreases |s| - i
  {
    if i + 2 > |s| then |s| + 1 else if s[i..i + 2] == "\n\n" then i + 2 else LfEnd(s, i + 1)
  }

  predicate IsDigit(c: char) {
    '0' <= c <= '9'
  }

  /** The number a run of digits denotes, from offset `i`. */
  function Number(l: string, i: nat, acc: nat): nat
    requires i <= |l|
    decreases |l| - i
  {
    if i < |l| && IsDigit(l[i]) then Number(l, i + 1, acc * 10 + (l[i] - '0') as nat) else acc
  }

  /** A decimal reader that starts on a number's digits reads that number. */
  lemma {:induction false} ReadDigits(t: string, p: nat, n: nat)
    requires TextAt(t, p, Digits(n))
    ensures Number(t, p, 0) == Number(t, p + |Digits(n)|, n)
    decreases n
  {
    if n < 10 {
      assert t[p + 0] == Digits(n)[0];
    } else {
      var last := [('0' as int + n % 10) as char];
      TextAtJoin(t, p, Digits(n / 10), last);
      ReadDigits(t, p, n / 10);
      assert t[p + |Digits(n / 10)| + 0] == last[0];
    }
  }

  predicate DigitAt(t: string, i: nat) {
    i < |t| && IsDigit(t[i])
  }

  function DigitsEnd(t: string, i: nat): (r: nat)
    requires i <= |t|
    ensures i <= r <= |t|
    decreases |t| - i
  {
    if DigitAt(t, i) then DigitsEnd(t, i + 1) else i
  }

  lemma {:induction false} RunOfDigits(t: string, i: nat, n: nat)
    requires i + n <= |t| && !DigitAt(t, i + n) && forall k :: i <= k < i + n ==> IsDigit(t[k])
    ensures DigitsEnd(t, i) == i + n
    decreases n
  {
    if n > 0 { RunOfDigits(t, i + 1, n - 1); }
  }

  /** A number's digits end where another character follows. */
  lemma DigitsEndAfter(t: string, s: nat, n: nat)
    requires TextAt(t, s, Digits(n)) && !DigitAt(t, s + |Digits(n)|)
    ensures s < |t| && IsDigit(t[s])
    ensures DigitsEnd(t, s) == s + |Digits(n)| && Number(t, s, 0) == n
  {
    var x := Digits(n);
    ReadDigits(t, s, n);
    forall k | s <= k < s + |x| ensures IsDigit(t[k]) {
      assert t[s + (k - s)] == x[k - s];
    }
    RunOfDigits(t, s, |x|);
  }

  /** First `c` in t[i..end], or `end`. */
  function FindChar(t: string, i: nat, end: nat, c: char): (r: nat)
    requires i <= end <= |t|
    ensures i <= r <= end && (r < end ==> t[r] == c)
    ensures forall k :: i <= k < r ==> t[k] != c
    decreases end - i
  {
    if i == end || t[i] == c then i else FindChar(t, i + 1, end, c)
  }

  lemma {:induction false} FindCharAfter(t: string, i: nat, end: nat, c: char, n: nat)
    requires i <= n <= end <= |t| && (n == end || t[n] == c) && forall k :: i <= k < n ==> t[k] != c
    ensures FindChar(t, i, end, c) == n
    decreases n - i
  {
    if i < n { FindCharAfter(t, i + 1, end, c, n); }
  }

  lemma FindCharPastText(t: string, i: nat, end: nat, c: char, x: string)
    requires TextAt(t, i, x) && c !in x && i + |x| <= end <= |t| && (i + |x| == end || t[i + |x|] == c)
    ensures FindChar(t, i, end, c) == i + |x|
  {
    forall k | i <= k < i + |x| ensures t[k] != c {
      assert t[i + (k - i)] == x[k - i];
    }
    FindCharAfter(t, i, end, c, i + |x|);
  }

  lemma TextAtEnd(t: string, i: nat, x: string)
    requires TextAt(t, i, x)
    ensures i + |x| <= |t|
  {
  }

  /** The characters a text at an offset begins with. */
  lemma TextAtHead(t: string, i: nat, x: string)
    requires TextAt(t, i, x) && x != ""
    ensures i < |t| && t[i] == x[0]
  {
    assert t[i + 0] == x[0];
  }

  lemma TextAtSlice(t: string, i: nat, x: string)
    requires TextAt(t, i, x)
    ensures i + |x| <= |t| && t[i..i + |x|] == x
  {
  }

  lemma TextAtSelf(t: string)
    ensures TextAt(t, 0, t)
  {
  }

  function PrintInt(n: int): string {
    if n < 0 then "-" + Digits(-n) else Digits(n)
  }

  lemma {:induction false} FewDigits(n: nat, k: nat)
    requires k > 0 && n < Power10(k)
    ensures |Digits(n)| <= k
    decreases k
  {
    assert Power10(1) == 10 * Power10(0) == 10;
    if n >= 10 {
      FewDigits(n / 10, k - 1);
    }
  }

  function Power10(k: nat): nat {
    if k == 0 then 1 else 10 * Power10(k - 1)
  }

  lemma NineteenDigits(n: nat)
    requires n <= 0x8000_0000_0000_0000
    ensures |Digits(n)| <= 19
  {
    assert Power10(5) == 100_000;
    assert Power10(10) == 10_000_000_000;
    assert Power10(15) == 1_000_000_000_000_000;
    assert Power10(19) == 10_000_000_000_000_000_000;
    FewDigits(n, 19);
  }

  lemma TwentyDigits(n: nat)
    requires n < 0x1_0000_0000_0000_0000
    ensures |Digits(n)| <= 20
  {
    assert Power10(5) == 100_000;
    assert Power10(10) == 10_000_000_000;
    assert Power10(15) == 1_000_000_000_000_000;
    assert Power10(20) == 100_000_000_000_000_000_000;
    FewDigits(n, 20);
  }

  /** A number's digits cut short are the digits of a smaller number. */
  lemma {:induction false} DigitsCut(n: nat, k: nat) returns (m: nat)
    requires 0 < k < |Digits(n)|
    ensures Digits(n)[..k] == Digits(m) && m < n
    decreases n
  {
    if k == |Digits(n)| - 1 {
      m := n / 10;
    } else {
      m := DigitsCut(n / 10, k);
      assert Digits(n)[..k] == Digits(n / 10)[..k];
    }
  }

  predicate Int64(n: int) {
    -0x8000_0000_0000_0000 <= n <= 0x7fff_ffff_ffff_ffff
  }

  lemma HeadTail<T>(s: seq<T>)
    requires s != []
    ensures s == [s[0]] + s[1..]
  {
  }

  lemma NoMore<T>(x: seq<T>)
    ensures x + [] == x == [] + x
  {
  }

  lemma Assoc<T>(x: seq<T>, y: seq<T>, z: seq<T>)
    ensures x + (y + z) == x + y + z
  {
  }

  lemma TextAtIndex(t: string, i: nat, x: string, k: nat)
    requires TextAt(t, i, x) && k < |x|
    ensures t[i + k] == x[k]
  {
  }

  /** ASCII lower case; every other byte is unchanged. */
  function Lower(c: char): char {
    if 'A' <= c <= 'Z' then c + 32 as char else c
  }

  function Fold(s: string): (r: string)
    ensures |r| == |s| && forall i :: 0 <= i < |s| ==> r[i] == Lower(s[i])
  {
    seq(|s|, i requires 0 <= i < |s| => Lower(s[i]))
  }

  predicate IsBreak(c: char) {
    c == '\r' || c == '\n'
  }
}
