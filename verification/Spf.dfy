/** SPF evaluation over an arbitrary, possibly cyclic DNS zone, bounded only by
    the shared count of DNS-querying terms. */
module Spf {
  import opened Common
  import opened Kmp

  datatype Verdict = Pass | Fail | SoftFail | Neutral | NoRecord

  type byte = x: int | 0 <= x < 256

  /** An address: 4 or 16 bytes. */
  type Address = seq<byte>

  /** What the evaluation asks of the outside: TXT and A records (None when the
      query fails) and the address/prefix a CIDR text denotes. */
  datatype Env = Env(txt: string -> Option<seq<string>>, a: string -> Option<seq<Address>>,
                     net4: string -> Option<(Address, nat)>, net6: string -> Option<(Address, nat)>)

  const MAX_LOOKUPS: nat := 10

  // ---------------------------------------------------------------------
  // CIDR match
  // ---------------------------------------------------------------------

  /** The weight of the last kept bit when the first `k` bits of a byte are kept: 2^(8-k). */
  function Weight(k: nat): (w: nat)
    requires k <= 8
    ensures w > 0
  {
    match k
    case 0 => 256 case 1 => 128 case 2 => 64 case 3 => 32 case 4 => 16
    case 5 => 8 case 6 => 4 case 7 => 2 case _ => 1
  }

  /** A byte under the mask of its first `k` bits: the lower bits are cleared. */
  function Masked(x: byte, k: nat): nat
    requires k <= 8
  {
    x - x % Weight(k)
  }

  /** Bit `i` of a byte, the most significant first. */
  function Bit(x: byte, i: nat): nat
    requires i < 8
  {
    x / Weight(i + 1) % 2
  }

  predicate SameBit(x: byte, y: byte, i: nat)
    requires i < 8
  {
    Bit(x, i) == Bit(y, i)
  }

  predicate SameMasked(x: byte, y: byte, k: nat)
    requires k <= 8
  {
    Masked(x, k) == Masked(y, k)
  }

  /** The two addresses agree in bit `i`. */
  predicate SameAddressBit(ip: Address, net: Address, i: nat)
    requires i < 8 * |ip| && |ip| == |net|
  {
    SameBit(ip[i / 8], net[i / 8], i % 8)
  }

  lemma MaskStarts(x: byte, y: byte)
    ensures SameMasked(x, y, 0)
  {
  }

  /** Clearing the low bits and dropping them is the same comparison. */
  lemma MaskedByQuotient(x: byte, y: byte, k: nat)
    requires k <= 8
    ensures SameMasked(x, y, k) <==> x / Weight(k) == y / Weight(k)
  {
    if k == 0 {} else if k == 1 {} else if k == 2 {} else if k == 3 {} else if k == 4 {}
    else if k == 5 {} else if k == 6 {} else if k == 7 {}
  }

  lemma QuotientStep(x: byte, k: nat)
    requires k < 8
    ensures x / Weight(k) == x / Weight(k + 1) / 2
  {
    if k == 0 {} else if k == 1 {} else if k == 2 {} else if k == 3 {} else if k == 4 {}
    else if k == 5 {} else if k == 6 {}
  }

  lemma MaskGrows(x: byte, y: byte, k: nat)
    requires k < 8
    ensures SameMasked(x, y, k + 1) <==> SameMasked(x, y, k) && SameBit(x, y, k)
  {
    hide Weight;
    MaskedByQuotient(x, y, k);
    MaskedByQuotient(x, y, k + 1);
    QuotientStep(x, k);
    QuotientStep(y, k);
  }

  /** Masked bytes are equal exactly when the kept bits are. */
  lemma {:induction false} MaskedEqual(x: byte, y: byte, k: nat)
    requires k <= 8
    ensures SameMasked(x, y, k) <==> forall i :: 0 <= i < k ==> SameBit(x, y, i)
  {
    hide SameMasked, SameBit;
    if k == 0 {
      MaskStarts(x, y);
    } else {
      MaskedEqual(x, y, k - 1);
      MaskGrows(x, y, k - 1);
    }
  }

  /** The byte loop of spf_ip4_match and spf_ip6_match: true exactly when the
      first `prefix` bits agree. */
  method CidrMatch(ip: Address, net: Address, prefix: nat) returns (r: bool)
    requires |ip| == |net| && prefix <= 8 * |ip|
    ensures r <==> forall i :: 0 <= i < prefix ==> SameAddressBit(ip, net, i)
  {
    hide SameMasked, SameBit;
    var bits := prefix;
    var b := 0;
    while b < |ip| && bits > 0
      invariant b <= |ip| && bits == if prefix >= 8 * b then prefix - 8 * b else 0
      invariant forall i :: 0 <= i < 8 * b && i < prefix ==> SameAddressBit(ip, net, i)
    {
      var k := if bits >= 8 then 8 else bits;
      MaskedEqual(ip[b], net[b], k);
      if !SameMasked(ip[b], net[b], k) {
        var j :| 0 <= j < k && !SameBit(ip[b], net[b], j);
        DivMod(b, 8 * b + j);
        assert !SameAddressBit(ip, net, 8 * b + j);
        return false;
      }
      forall i | 8 * b <= i < 8 * b + 8 && i < prefix ensures SameAddressBit(ip, net, i) {
        DivMod(b, i);
      }
      bits := if bits >= 8 then bits - 8 else 0;
      b := b + 1;
    }
    r := true;
  }

  lemma DivMod(b: nat, i: nat)
    requires 8 * b <= i < 8 * b + 8
    ensures i / 8 == b && i % 8 == i - 8 * b
  {
  }

  /** The first `prefix` bits of two addresses of one length agree. */
  predicate InPrefix(ip: Address, net: Address, prefix: nat) {
    |ip| == |net| && prefix <= 8 * |ip| && forall i :: 0 <= i < prefix ==> SameAddressBit(ip, net, i)
  }

  /** spf_ip4_match and spf_ip6_match for addresses of `n` bytes; a text that is
      no network matches nothing. */
  predicate InNetwork(ip: Address, n: nat, net: Option<(Address, nat)>) {
    |ip| == n && net.Some? && |net.value.0| == n && InPrefix(ip, net.value.0, net.value.1)
  }

  // ---------------------------------------------------------------------
  // Terms of a record
  // ---------------------------------------------------------------------

  datatype Mech =
    | Ip4(cidr: string) | Ip6(cidr: string) | All
    | Hosts(dom: Option<string>)      // a and mx: the A records of a domain
    | Redirect(target: string) | Include(target: string)
    | Unknown

  function SpaceStop(r: string, i: nat): (k: nat)
    requires i <= |r|
    ensures i <= k <= |r|
    ensures i < |r| && r[i] != ' ' ==> k > i
    decreases |r| - i
  {
    if i < |r| && r[i] != ' ' then SpaceStop(r, i + 1) else i
  }

  /** The space-separated terms from offset `i`. */
  function Tokens(r: string, i: nat): seq<string>
    requires i <= |r|
    decreases |r| - i
  {
    if i == |r| then []
    else if r[i] == ' ' then Tokens(r, i + 1)
    else
      var k := SpaceStop(r, i);
      [r[i..k]] + Tokens(r, k)
  }

  predicate HasPrefix(m: string, lit: string) {
    |m| >= |lit| && Fold(m[..|lit|]) == lit
  }

  /** A copy into a buffer of `n` bytes. */
  function Cap(s: string, n: nat): string {
    if |s| < n then s else s[..if n > 0 then n - 1 else 0]
  }

  /** The qualifier of a term and the mechanism behind it. */
  function ParseTerm(tok: string): (Verdict, Mech) {
    if tok != "" && tok[0] == '+' then (Pass, ParseMech(tok[1..]))
    else if tok != "" && tok[0] == '-' then (Fail, ParseMech(tok[1..]))
    else if tok != "" && tok[0] == '~' then (SoftFail, ParseMech(tok[1..]))
    else if tok != "" && tok[0] == '?' then (Neutral, ParseMech(tok[1..]))
    else (Pass, ParseMech(tok))
  }

  function ParseMech(m: string): Mech {
    if HasPrefix(m, "ip4:") then Ip4(Cap(m[4..], 64))
    else if HasPrefix(m, "ip6:") then Ip6(Cap(m[4..], 64))
    else if |m| == 3 && HasPrefix(m, "all") then All
    else if HasPrefix(m, "a") then Hosts(if |m| >= 2 && m[1] == ':' then Some(Cap(m[2..], 512)) else None)
    else if HasPrefix(m, "mx") then Hosts(if |m| >= 3 && m[2] == ':' then Some(Cap(m[3..], 512)) else None)
    else if HasPrefix(m, "redirect=") then Redirect(Cap(m[9..], 512))
    else if HasPrefix(m, "include:") then Include(Cap(m[8..], 512))
    else Unknown
  }

  // ---------------------------------------------------------------------
  // The evaluator with the shared counter
  // ---------------------------------------------------------------------

  /** Verdict, the counter of DNS terms, and the queries sent. */
  datatype Outcome = Outcome(verdict: Verdict, lookups: nat, queries: nat)

  function Left(n: nat): nat {
    if n <= MAX_LOOKUPS then MAX_LOOKUPS - n + 1 else 0
  }

  function Asked(o: Outcome, q: nat): Outcome {
    o.(queries := o.queries + q)
  }

  /** The domain of an a or mx term can be queried. */
  predicate Queryable(dom: Option<string>) {
    dom.Some? && dom.value != ""
  }

  predicate HostMatches(env: Env, dom: Option<string>, ip: Address) {
    Queryable(dom) && env.a(dom.value).Some? && ip in env.a(dom.value).value
  }

  /** The verdict a redirect hands on, if it does. */
  function Redirected(q: Verdict, r: Verdict): Option<Verdict> {
    match r
    case Pass => Some(q)
    case Fail => Some(Fail)
    case SoftFail => Some(SoftFail)
    case _ => None
  }

  /** What one term does: it ends the evaluation, or the next term follows with
      the counter at `lookups` and `queries` more queries sent. */
  datatype Step = Ends(o: Outcome) | Goes(lookups: nat, queries: nat)

  /** One term, with the counter at `n`. */
  function EvalTerm(env: Env, q: Verdict, m: Mech, def: Option<string>, ip: Address, n: nat): (s: Step)
    ensures s.Ends? ==> s.o.lookups >= n
    ensures s.Goes? ==> s.lookups >= n
    decreases Left(n), 0, 0
  {
    match m
    case Ip4(c) => if InNetwork(ip, 4, env.net4(c)) then Ends(Outcome(q, n, 0)) else Goes(n, 0)
    case Ip6(c) => if InNetwork(ip, 16, env.net6(c)) then Ends(Outcome(q, n, 0)) else Goes(n, 0)
    case All => Ends(Outcome(q, n, 0))
    case Hosts(d) =>
      var dom := if d.Some? then d else def;
      var asked := if n + 1 <= MAX_LOOKUPS && Queryable(dom) then 1 else 0;
      if n + 1 <= MAX_LOOKUPS && HostMatches(env, dom, ip) then Ends(Outcome(q, n + 1, asked)) else Goes(n + 1, asked)
    case Redirect(t) =>
      if n + 1 > MAX_LOOKUPS then Goes(n + 1, 0)
      else
        var o := EvalDomain(env, t, ip, n + 1);
        var r := Redirected(q, o.verdict);
        if r.Some? then Ends(o.(verdict := r.value)) else Goes(o.lookups, o.queries)
    case Include(t) =>
      if n + 1 > MAX_LOOKUPS then Goes(n + 1, 0)
      else
        var o := EvalDomain(env, t, ip, n + 1);
        if o.verdict == Pass then Ends(o.(verdict := q)) else Goes(o.lookups, o.queries)
    case Unknown => Goes(n, 0)
  }

  /** auth_spf_eval_record_depth on the remaining terms, with the counter at `n`. */
  function EvalRecord(env: Env, toks: seq<string>, def: Option<string>, ip: Address, n: nat): (o: Outcome)
    ensures o.lookups >= n
    decreases Left(n), 1, |toks|
  {
    if toks == [] then Outcome(Neutral, n, 0)
    else
      var (q, m) := ParseTerm(toks[0]);
      match EvalTerm(env, q, m, def, ip, n)
      case Ends(o) => o
      case Goes(k, asked) => Asked(EvalRecord(env, toks[1..], def, ip, k), asked)
  }

  /** The first v=spf1 record of a domain: its terms. */
  function SpfTerms(texts: seq<string>): Option<seq<string>> {
    if texts == [] then None
    else if HasPrefix(texts[0], "v=spf1") then Some(Tokens(texts[0], 6))
    else SpfTerms(texts[1..])
  }

  /** auth_spf_eval_depth: fetch and evaluate the record of a domain. */
  function EvalDomain(env: Env, dom: string, ip: Address, n: nat): (o: Outcome)
    ensures o.lookups >= n
    decreases Left(n), 2, 0
  {
    if dom == "" then Outcome(NoRecord, n, 0)
    else
      var texts := env.txt(dom);
      var terms := if texts.Some? then SpfTerms(texts.value) else None;
      if terms.None? then Outcome(NoRecord, n, 1)
      else Asked(EvalRecord(env, terms.value, Some(dom), ip, n), 1)
  }

  /** Terms within the budget: the only ones that query. */
  function Within(n: nat): nat {
    if n <= MAX_LOOKUPS then n else MAX_LOOKUPS
  }

  lemma {:induction false} TermQueries(env: Env, q: Verdict, m: Mech, def: Option<string>, ip: Address, n: nat)
    ensures match EvalTerm(env, q, m, def, ip, n)
            case Ends(o) => o.queries <= Within(o.lookups) - Within(n)
            case Goes(k, asked) => asked <= Within(k) - Within(n)
    decreases Left(n), 0, 0
  {
    hide HostMatches, InNetwork;
    if n + 1 <= MAX_LOOKUPS {
      match m
      case Redirect(t) => DomainQueries(env, t, ip, n + 1);
      case Include(t) => DomainQueries(env, t, ip, n + 1);
      case _ =>
    }
  }

  lemma {:induction false} RecordQueries(env: Env, toks: seq<string>, def: Option<string>, ip: Address, n: nat)
    ensures var o := EvalRecord(env, toks, def, ip, n); o.queries <= Within(o.lookups) - Within(n)
    decreases Left(n), 1, |toks|
  {
    hide ParseTerm, EvalTerm;
    if toks != [] {
      var (q, m) := ParseTerm(toks[0]);
      TermQueries(env, q, m, def, ip, n);
      var s := EvalTerm(env, q, m, def, ip, n);
      if s.Goes? { RecordQueries(env, toks[1..], def, ip, s.lookups); }
    }
  }

  lemma {:induction false} DomainQueries(env: Env, dom: string, ip: Address, n: nat)
    ensures var o := EvalDomain(env, dom, ip, n); o.queries <= 1 + Within(o.lookups) - Within(n)
    decreases Left(n), 2, 0
  {
    hide EvalRecord;
    if dom != "" {
      var texts := env.txt(dom);
      var terms := if texts.Some? then SpfTerms(texts.value) else None;
      if terms.Some? {
        RecordQueries(env, terms.value, Some(dom), ip, n);
      }
    }
  }

  /** Whatever the zone, a check sends at most eleven DNS queries. */
  lemma AtMostElevenQueries(env: Env, dom: string, ip: Address)
    ensures EvalDomain(env, dom, ip, 0).queries <= MAX_LOOKUPS + 1
  {
    DomainQueries(env, dom, ip, 0);
  }

  // ---------------------------------------------------------------------
  // The counter-free evaluator
  // ---------------------------------------------------------------------

  /** One term without a budget: the verdict and the DNS terms met, or the DNS
      terms met before the next term. */
  datatype FreeStep = FreeEnds(v: Verdict, met: nat) | FreeGoes(met: nat)

  function FreeTerm(env: Env, q: Verdict, m: Mech, def: Option<string>, ip: Address, depth: nat): Option<FreeStep>
    decreases depth, 0, 0
  {
    match m
    case Ip4(c) => Some(if InNetwork(ip, 4, env.net4(c)) then FreeEnds(q, 0) else FreeGoes(0))
    case Ip6(c) => Some(if InNetwork(ip, 16, env.net6(c)) then FreeEnds(q, 0) else FreeGoes(0))
    case All => Some(FreeEnds(q, 0))
    case Hosts(d) => Some(if HostMatches(env, if d.Some? then d else def, ip) then FreeEnds(q, 1) else FreeGoes(1))
    case Redirect(t) =>
      if depth == 0 then None
      else
        var o := FreeDomain(env, t, ip, depth - 1);
        if o.None? then None
        else
          var r := Redirected(q, o.value.0);
          Some(if r.Some? then FreeEnds(r.value, 1 + o.value.1) else FreeGoes(1 + o.value.1))
    case Include(t) =>
      if depth == 0 then None
      else
        var o := FreeDomain(env, t, ip, depth - 1);
        if o.None? then None
        else Some(if o.value.0 == Pass then FreeEnds(q, 1 + o.value.1) else FreeGoes(1 + o.value.1))
    case Unknown => Some(FreeGoes(0))
  }

  /** Verdict and DNS terms met, by an evaluator without a budget that may nest
      domains `depth` deep; None when that is not deep enough. */
  function FreeRecord(env: Env, toks: seq<string>, def: Option<string>, ip: Address, depth: nat): Option<(Verdict, nat)>
    decreases depth, 1, |toks|
  {
    if toks == [] then Some((Neutral, 0))
    else
      var (q, m) := ParseTerm(toks[0]);
      match FreeTerm(env, q, m, def, ip, depth)
      case None => None
      case Some(FreeEnds(v, k)) => Some((v, k))
      case Some(FreeGoes(k)) => Met(FreeRecord(env, toks[1..], def, ip, depth), k)
  }

  function FreeDomain(env: Env, dom: string, ip: Address, depth: nat): Option<(Verdict, nat)>
    decreases depth, 2, 0
  {
    if dom == "" then Some((NoRecord, 0))
    else
      var texts := env.txt(dom);
      var terms := if texts.Some? then SpfTerms(texts.value) else None;
      if terms.None? then Some((NoRecord, 0))
      else FreeRecord(env, terms.value, Some(dom), ip, depth)
  }

  function Met(o: Option<(Verdict, nat)>, k: nat): Option<(Verdict, nat)> {
    if o.None? then None else Some((o.value.0, o.value.1 + k))
  }

  /** The budgeted outcome, seen without the query count. */
  predicate SameOutcome(o: Outcome, n: nat, f: (Verdict, nat)) {
    o.verdict == f.0 && o.lookups == n + f.1
  }

  /** The same of one term. */
  predicate SameStep(s: Step, n: nat, f: FreeStep) {
    match f
    case FreeEnds(v, k) => s.Ends? && s.o.verdict == v && s.o.lookups == n + k
    case FreeGoes(k) => s.Goes? && s.lookups == n + k
  }

  /** Where the counter-free evaluator stays within the budget, the counter changes nothing. */
  lemma {:induction false} FreeTermAgrees(env: Env, q: Verdict, m: Mech, def: Option<string>, ip: Address,
                                          depth: nat, n: nat)
    requires FreeTerm(env, q, m, def, ip, depth).Some?
    requires n + FreeTerm(env, q, m, def, ip, depth).value.met <= MAX_LOOKUPS
    ensures SameStep(EvalTerm(env, q, m, def, ip, n), n, FreeTerm(env, q, m, def, ip, depth).value)
    decreases depth, 0, 0
  {
    hide HostMatches, InNetwork, EvalDomain, FreeDomain;
    match m
    case Redirect(t) => FreeDomainAgrees(env, t, ip, depth - 1, n + 1);
    case Include(t) => FreeDomainAgrees(env, t, ip, depth - 1, n + 1);
    case _ =>
  }

  lemma {:induction false} FreeRecordAgrees(env: Env, toks: seq<string>, def: Option<string>, ip: Address,
                                            depth: nat, n: nat)
    requires FreeRecord(env, toks, def, ip, depth).Some?
    requires n + FreeRecord(env, toks, def, ip, depth).value.1 <= MAX_LOOKUPS
    ensures SameOutcome(EvalRecord(env, toks, def, ip, n), n, FreeRecord(env, toks, def, ip, depth).value)
    decreases depth, 1, |toks|
  {
    hide ParseTerm, EvalTerm, FreeTerm;
    if toks != [] {
      var (q, m) := ParseTerm(toks[0]);
      FreeTermAgrees(env, q, m, def, ip, depth, n);
      var f := FreeTerm(env, q, m, def, ip, depth).value;
      if f.FreeGoes? { FreeRecordAgrees(env, toks[1..], def, ip, depth, n + f.met); }
    }
  }

  lemma {:induction false} FreeDomainAgrees(env: Env, dom: string, ip: Address, depth: nat, n: nat)
    requires FreeDomain(env, dom, ip, depth).Some?
    requires n + FreeDomain(env, dom, ip, depth).value.1 <= MAX_LOOKUPS
    ensures SameOutcome(EvalDomain(env, dom, ip, n), n, FreeDomain(env, dom, ip, depth).value)
    decreases depth, 2, 0
  {
    hide EvalRecord, FreeRecord, SpfTerms;
    if dom != "" {
      var texts := env.txt(dom);
      var terms := if texts.Some? then SpfTerms(texts.value) else None;
      if terms.Some? {
        FreeRecordAgrees(env, terms.value, Some(dom), ip, depth, n);
      }
    }
  }

  /** Where the counter stays within the budget, the counter-free evaluator
      finishes, with the same verdict and count. */
  lemma {:induction false} BudgetedTermAgrees(env: Env, q: Verdict, m: Mech, def: Option<string>, ip: Address,
                                              depth: nat, n: nat)
    requires depth >= Left(n)
    requires match EvalTerm(env, q, m, def, ip, n)
             case Ends(o) => o.lookups <= MAX_LOOKUPS
             case Goes(k, _) => k <= MAX_LOOKUPS
    ensures FreeTerm(env, q, m, def, ip, depth).Some?
    ensures SameStep(EvalTerm(env, q, m, def, ip, n), n, FreeTerm(env, q, m, def, ip, depth).value)
    decreases Left(n), 0, 0
  {
    hide HostMatches, InNetwork, EvalDomain, FreeDomain;
    match m
    case Redirect(t) => BudgetedDomainAgrees(env, t, ip, depth - 1, n + 1);
    case Include(t) => BudgetedDomainAgrees(env, t, ip, depth - 1, n + 1);
    case _ =>
  }

  lemma {:induction false} BudgetedRecordAgrees(env: Env, toks: seq<string>, def: Option<string>, ip: Address,
                                                depth: nat, n: nat)
    requires EvalRecord(env, toks, def, ip, n).lookups <= MAX_LOOKUPS && depth >= Left(n)
    ensures FreeRecord(env, toks, def, ip, depth).Some?
    ensures SameOutcome(EvalRecord(env, toks, def, ip, n), n, FreeRecord(env, toks, def, ip, depth).value)
    decreases Left(n), 1, |toks|
  {
    hide ParseTerm, EvalTerm, FreeTerm;
    if toks != [] {
      var (q, m) := ParseTerm(toks[0]);
      BudgetedTermAgrees(env, q, m, def, ip, depth, n);
      var s := EvalTerm(env, q, m, def, ip, n);
      if s.Goes? { BudgetedRecordAgrees(env, toks[1..], def, ip, depth, s.lookups); }
    }
  }

  lemma {:induction false} BudgetedDomainAgrees(env: Env, dom: string, ip: Address, depth: nat, n: nat)
    requires EvalDomain(env, dom, ip, n).lookups <= MAX_LOOKUPS && depth >= Left(n)
    ensures FreeDomain(env, dom, ip, depth).Some?
    ensures SameOutcome(EvalDomain(env, dom, ip, n), n, FreeDomain(env, dom, ip, depth).value)
    decreases Left(n), 2, 0
  {
    hide EvalRecord, FreeRecord, SpfTerms;
    if dom != "" {
      var texts := env.txt(dom);
      var terms := if texts.Some? then SpfTerms(texts.value) else None;
      if terms.Some? {
        BudgetedRecordAgrees(env, terms.value, Some(dom), ip, depth, n);
      }
    }
  }

  /** The check meets at most ten DNS terms exactly when the counter-free
      evaluator, nested deep enough, does; then both give one verdict. */
  lemma BudgetIsInvisible(env: Env, dom: string, ip: Address)
    ensures EvalDomain(env, dom, ip, 0).lookups <= MAX_LOOKUPS <==>
            exists depth: nat :: FreeDomain(env, dom, ip, depth).Some?
                                 && FreeDomain(env, dom, ip, depth).value.1 <= MAX_LOOKUPS
    ensures forall depth: nat :: FreeDomain(env, dom, ip, depth).Some?
                                 && FreeDomain(env, dom, ip, depth).value.1 <= MAX_LOOKUPS ==>
              SameOutcome(EvalDomain(env, dom, ip, 0), 0, FreeDomain(env, dom, ip, depth).value)
  {
    forall depth: nat | FreeDomain(env, dom, ip, depth).Some? && FreeDomain(env, dom, ip, depth).value.1 <= MAX_LOOKUPS
      ensures SameOutcome(EvalDomain(env, dom, ip, 0), 0, FreeDomain(env, dom, ip, depth).value)
    {
      FreeDomainAgrees(env, dom, ip, depth, 0);
    }
    if EvalDomain(env, dom, ip, 0).lookups <= MAX_LOOKUPS {
      BudgetedDomainAgrees(env, dom, ip, 11, 0);
    }
  }

  /** A domain whose record redirects to itself: the free evaluator never
      finishes, the budgeted one answers. */
  lemma {:induction false} SelfRedirectNeverEnds(env: Env, dom: string, toks: seq<string>, ip: Address, depth: nat)
    requires dom != "" && env.txt(dom).Some? && SpfTerms(env.txt(dom).value) == Some(toks)
    requires toks != [] && ParseTerm(toks[0]).1 == Redirect(dom)
    ensures FreeDomain(env, dom, ip, depth) == None
  {
    hide ParseTerm;
    if depth > 0 {
      SelfRedirectNeverEnds(env, dom, toks, ip, depth - 1);
    }
    var (q, m) := ParseTerm(toks[0]);
    assert FreeTerm(env, q, m, Some(dom), ip, depth) == None;
    assert FreeRecord(env, toks, Some(dom), ip, depth) == None;
  }

  // ---------------------------------------------------------------------
  // The evaluator as the source runs it
  // ---------------------------------------------------------------------

  /** The records of a host are compared one by one. */
  method HostLoop(addrs: seq<Address>, ip: Address) returns (hit: bool)
    ensures hit == (ip in addrs)
  {
    for i := 0 to |addrs|
      invariant ip !in addrs[..i]
    {
      if |addrs[i]| == |ip| && addrs[i] == ip { return true; }
    }
    hit := false;
  }

  method MatchNetwork(ip: Address, n: nat, net: Option<(Address, nat)>) returns (hit: bool)
    requires net.Some? ==> |net.value.0| == n && net.value.1 <= 8 * n
    ensures hit == InNetwork(ip, n, net)
  {
    if |ip| != n || net.None? { return false; }
    hit := CidrMatch(ip, net.value.0, net.value.1);
  }

  ghost predicate GoodNets(env: Env) {
    forall c :: && (env.net4(c).Some? ==> |env.net4(c).value.0| == 4 && env.net4(c).value.1 <= 32)
                && (env.net6(c).Some? ==> |env.net6(c).value.0| == 16 && env.net6(c).value.1 <= 128)
  }

  /** One term of the record: `done` says that it ends the evaluation. */
  method EvalTermCall(env: Env, q: Verdict, m: Mech, def: Option<string>, ip: Address, n: nat)
    returns (done: bool, verdict: Verdict, lookups: nat, queries: nat)
    requires GoodNets(env)
    ensures EvalTerm(env, q, m, def, ip, n)
         == if done then Ends(Outcome(verdict, lookups, queries)) else Goes(lookups, queries)
    decreases Left(n), 0
  {
    hide InNetwork, HostMatches, EvalDomain, Queryable;
    done, verdict, lookups, queries := false, q, n, 0;
    match m {
      case Ip4(c) => done := MatchNetwork(ip, 4, env.net4(c));
      case Ip6(c) => done := MatchNetwork(ip, 16, env.net6(c));
      case All => done := true;
      case Hosts(d) =>
        lookups := lookups + 1;
        done, queries := QueryHost(env, if d.Some? then d else def, ip, lookups);
      case Redirect(t) =>
        lookups := lookups + 1;
        if lookups <= MAX_LOOKUPS {
          verdict, lookups, queries := EvalDomainCall(env, t, ip, lookups);
          done := verdict == Pass || verdict == Fail || verdict == SoftFail;
          if verdict == Pass { verdict := q; }
        }
      case Include(t) =>
        lookups := lookups + 1;
        if lookups <= MAX_LOOKUPS {
          verdict, lookups, queries := EvalDomainCall(env, t, ip, lookups);
          done := verdict == Pass;
          if done { verdict := q; }
        }
      case Unknown =>
    }
  }

  /** auth_spf_eval_record_depth: the token cursor and the counter threaded
      through; the cursor starts at `start`. */
  method EvalRecordLoop(env: Env, rec: string, start: nat, def: Option<string>, ip: Address, n: nat)
    returns (verdict: Verdict, lookups: nat, queries: nat)
    requires GoodNets(env) && start <= |rec|
    ensures Outcome(verdict, lookups, queries) == EvalRecord(env, Tokens(rec, start), def, ip, n)
    decreases Left(n), 1
  {
    hide ParseTerm, EvalTerm;
    ghost var whole := EvalRecord(env, Tokens(rec, start), def, ip, n);
    var p: nat := start;
    lookups, queries := n, 0;
    while true
      invariant p <= |rec| && lookups >= n
      invariant whole == Asked(EvalRecord(env, Tokens(rec, p), def, ip, lookups), queries)
      decreases |rec| - p
    {
      p := SkipSpaces(rec, p);
      if p == |rec| { return Neutral, lookups, queries; }
      var tok: nat := p;
      p := TokenEnd(rec, p);
      TokensStep(rec, tok, p);
      hide Tokens;
      var (q, m) := ParseTerm(rec[tok..p]);
      var done, v, k, asked := EvalTermCall(env, q, m, def, ip, lookups);
      lookups, queries := k, queries + asked;
      if done { return v, lookups, queries; }
    }
  }

  /** The A query of one term, if the budget and the name allow it. */
  method QueryHost(env: Env, dom: Option<string>, ip: Address, lookups: nat) returns (hit: bool, asked: nat)
    ensures hit == (lookups <= MAX_LOOKUPS && HostMatches(env, dom, ip))
    ensures asked == if lookups <= MAX_LOOKUPS && Queryable(dom) then 1 else 0
  {
    hit, asked := false, 0;
    if lookups <= MAX_LOOKUPS && dom.Some? && dom.value != "" {
      asked := 1;
      var addrs := env.a(dom.value);
      if addrs.Some? { hit := HostLoop(addrs.value, ip); }
    }
  }

  method SkipSpaces(rec: string, start: nat) returns (p: nat)
    requires start <= |rec|
    ensures start <= p <= |rec| && Tokens(rec, p) == Tokens(rec, start)
    ensures p < |rec| ==> rec[p] != ' '
  {
    p := start;
    while p < |rec| && rec[p] == ' '
      invariant start <= p <= |rec| && Tokens(rec, p) == Tokens(rec, start)
    {
      p := p + 1;
    }
  }

  method TokenEnd(rec: string, start: nat) returns (p: nat)
    requires start < |rec| && rec[start] != ' '
    ensures start < p <= |rec| && p == SpaceStop(rec, start)
  {
    p := start;
    while p < |rec| && rec[p] != ' '
      invariant start <= p <= |rec| && SpaceStop(rec, p) == SpaceStop(rec, start)
    {
      p := p + 1;
    }
  }

  lemma TokensStep(rec: string, tok: nat, p: nat)
    requires tok < |rec| && rec[tok] != ' ' && p == SpaceStop(rec, tok)
    ensures Tokens(rec, tok) == [rec[tok..p]] + Tokens(rec, p)
    ensures Tokens(rec, tok)[0] == rec[tok..p] && Tokens(rec, tok)[1..] == Tokens(rec, p)
  {
  }

  /** auth_spf_eval_depth */
  method EvalDomainCall(env: Env, dom: string, ip: Address, n: nat)
    returns (verdict: Verdict, lookups: nat, queries: nat)
    requires GoodNets(env)
    ensures Outcome(verdict, lookups, queries) == EvalDomain(env, dom, ip, n)
    decreases Left(n), 2
  {
    if dom == "" { return NoRecord, n, 0; }
    var texts := env.txt(dom);
    if texts.None? { return NoRecord, n, 1; }
    for i := 0 to |texts.value|
      invariant SpfTerms(texts.value) == SpfTerms(texts.value[i..])
    {
      assert texts.value[i..][1..] == texts.value[i + 1..];
      if HasPrefix(texts.value[i], "v=spf1") {
        verdict, lookups, queries := EvalRecordLoop(env, texts.value[i], 6, Some(dom), ip, n);
        return verdict, lookups, queries + 1;
      }
    }
    return NoRecord, n, 1;
  }

  // ---------------------------------------------------------------------
  // The two ends of a prefix
  // ---------------------------------------------------------------------

  lemma SameBitsSameByte(x: byte, y: byte)
    requires forall i :: 0 <= i < 8 ==> SameBit(x, y, i)
    ensures x == y
  {
    MaskedEqual(x, y, 8);
  }

  /** A prefix of whole bytes is equality of those bytes: of none, every address, of
      all, the address itself. */
  lemma BytePrefix(ip: Address, net: Address, k: nat)
    requires |ip| == |net| && k <= |ip|
    ensures InPrefix(ip, net, 8 * k) <==> ip[..k] == net[..k]
  {
    if InPrefix(ip, net, 8 * k) {
      forall b | 0 <= b < k ensures ip[b] == net[b] {
        forall i | 0 <= i < 8 ensures SameBit(ip[b], net[b], i) {
          DivMod(b, 8 * b + i);
          assert SameAddressBit(ip, net, 8 * b + i);
        }
        SameBitsSameByte(ip[b], net[b]);
      }
    }
    if ip[..k] == net[..k] {
      forall i | 0 <= i < 8 * k ensures SameAddressBit(ip, net, i) {
        assert ip[..k][i / 8] == net[..k][i / 8];
      }
    }
  }

  /** So a network of whole bytes holds exactly the addresses of its family that
      begin with them; a text that is no network holds none. */
  lemma ByteNetwork(ip: Address, n: nat, net: Address, k: nat)
    requires k <= n
    ensures InNetwork(ip, n, Some((net, 8 * k))) <==> |ip| == n && |net| == n && ip[..k] == net[..k]
    ensures !InNetwork(ip, n, None)
  {
    if |ip| == |net| == n { BytePrefix(ip, net, k); }
  }
}
