/** What an SPF record says: from the text of its terms to the verdict. */
module SpfText {
  import opened Common
  import opened Spf

  // ---------------------------------------------------------------------
  // Terms and their texts
  // ---------------------------------------------------------------------

  datatype Qualifier = NoSign | Plus | Minus | Tilde | Question

  /** A term: its qualifier, its keyword in some spelling, and its mechanism. */
  datatype Term = Term(sign: Qualifier, word: string, mech: Mech)

  function SignText(s: Qualifier): string {
    match s
    case NoSign => ""
    case Plus => "+"
    case Minus => "-"
    case Tilde => "~"
    case Question => "?"
  }

  /** The verdict of a term that matches. */
  function SignVerdict(s: Qualifier): Verdict {
    match s
    case NoSign => Pass
    case Plus => Pass
    case Minus => Fail
    case Tilde => SoftFail
    case Question => Neutral
  }

  /** What follows the keyword. */
  function Argument(m: Mech): string {
    match m
    case Ip4(c) => c
    case Ip6(c) => c
    case All => ""
    case Hosts(d) => if d.Some? then ":" + d.value else ""
    case Redirect(t) => t
    case Include(t) => t
    case Unknown => ""
  }

  /** The first bytes of an argument, as many as its buffer holds. */
  function First(s: string, n: nat): string {
    if |s| <= n then s else s[..n]
  }

  /** What is kept of a mechanism: 63 bytes of an address, 511 of a domain. */
  function Kept(m: Mech): Mech {
    match m
    case Ip4(c) => Ip4(First(c, 63))
    case Ip6(c) => Ip6(First(c, 63))
    case Hosts(d) => if d.Some? then Hosts(Some(First(d.value, 511))) else m
    case Redirect(d) => Redirect(First(d, 511))
    case Include(d) => Include(First(d, 511))
    case _ => m
  }

  predicate Begins(w: string, kw: string) {
    |kw| <= |w| && Fold(w[..|kw|]) == kw
  }

  /** A word that asks for the hosts of the domain itself: all that begins with a or
      mx, but the word all and what has a colon there. */
  predicate OwnHosts(w: string) {
    || (Begins(w, "a") && Fold(w) != "all" && !(|w| >= 2 && w[1] == ':'))
    || (Begins(w, "mx") && !(|w| >= 3 && w[2] == ':'))
  }

  predicate NoKeyword(w: string) {
    && !Begins(w, "ip4:") && !Begins(w, "ip6:") && !Begins(w, "a") && !Begins(w, "mx")
    && !Begins(w, "redirect=") && !Begins(w, "include:")
  }

  predicate IsSign(c: char) {
    c == '+' || c == '-' || c == '~' || c == '?'
  }

  /** Keywords count in any case. */
  predicate WordFits(t: Term) {
    match t.mech
    case Ip4(_) => Fold(t.word) == "ip4:"
    case Ip6(_) => Fold(t.word) == "ip6:"
    case All => Fold(t.word) == "all"
    case Hosts(d) => if d.Some? then Fold(t.word) == "a" || Fold(t.word) == "mx" else OwnHosts(t.word)
    case Redirect(_) => Fold(t.word) == "redirect="
    case Include(_) => Fold(t.word) == "include:"
    case Unknown => NoKeyword(t.word) && (t.sign == NoSign ==> t.word != "" && !IsSign(t.word[0]))
  }

  predicate Proper(t: Term) {
    ' ' !in t.word && ' ' !in Argument(t.mech) && WordFits(t)
  }

  function TermText(t: Term): string {
    SignText(t.sign) + (t.word + Argument(t.mech))
  }

  function TermTexts(ts: seq<Term>): (r: seq<string>)
    ensures |r| == |ts| && forall i :: 0 <= i < |ts| ==> r[i] == TermText(ts[i])
  {
    if ts == [] then [] else [TermText(ts[0])] + TermTexts(ts[1..])
  }

  /** Every term behind a space. */
  function Spaced(toks: seq<string>): string {
    if toks == [] then "" else " " + (toks[0] + Spaced(toks[1..]))
  }

  // ---------------------------------------------------------------------
  // The texts are read back
  // ---------------------------------------------------------------------

  lemma WordOnly(m: string, word: string, arg: string)
    requires m == word + arg
    ensures |Fold(word)| == |word| && m[..|word|] == word && m[|word|..] == arg
    ensures forall i :: 0 <= i < |word| ==> Fold(word)[i] == Lower(m[i])
  {
  }

  /** A prefix that differs in some letter is none. */
  lemma OtherPrefix(m: string, lit: string, i: nat)
    requires i < |lit| && (i < |m| ==> Lower(m[i]) != lit[i])
    ensures !HasPrefix(m, lit)
  {
    if |m| >= |lit| { assert Fold(m[..|lit|])[i] == Lower(m[i]); }
  }

  /** The keyword of a term is read in any case, and its argument as far as the
      buffer goes. */
  lemma MechIsRead(t: Term)
    requires Proper(t)
    ensures ParseMech(t.word + Argument(t.mech)) == Kept(t.mech)
  {
    var w, a := t.word, Argument(t.mech);
    var m := w + a;
    WordOnly(m, w, a);
    match t.mech
    case Ip4(c) =>
    case Ip6(c) => OtherPrefix(m, "ip4:", 2);
    case All =>
      OtherPrefix(m, "ip4:", 0);
      OtherPrefix(m, "ip6:", 0);
    case Hosts(d) => if d.Some? { HostsAreRead(w, d.value); } else { OwnHostsAreRead(w); }
    case Unknown => assert m == w;
    case Redirect(d) =>
      OtherPrefix(m, "ip4:", 0);
      OtherPrefix(m, "ip6:", 0);
      OtherPrefix(m, "all", 0);
      OtherPrefix(m, "a", 0);
      OtherPrefix(m, "mx", 0);
    case Include(d) =>
      OtherPrefix(m, "ip4:", 1);
      OtherPrefix(m, "ip6:", 1);
      OtherPrefix(m, "all", 0);
      OtherPrefix(m, "a", 0);
      OtherPrefix(m, "mx", 0);
      OtherPrefix(m, "redirect=", 0);
  }

  lemma HostsAreRead(w: string, d: string)
    requires Fold(w) == "a" || Fold(w) == "mx"
    ensures ParseMech(w + Argument(Hosts(Some(d)))) == Kept(Hosts(Some(d)))
  {
    var m := w + (":" + d);
    WordOnly(m, w, ":" + d);
    OtherPrefix(m, "ip4:", 0);
    OtherPrefix(m, "ip6:", 0);
    assert |w| == |Fold(w)|;
    assert m[|w|] == ':' && m[|w| + 1..] == d;
    if Fold(w) == "a" {
      OtherPrefix(m, "all", 1);
      hide First;
    } else {
      OtherPrefix(m, "all", 0);
      OtherPrefix(m, "a", 0);
      hide First;
    }
  }

  lemma OwnHostsAreRead(w: string)
    requires OwnHosts(w)
    ensures ParseMech(w + Argument(Hosts(None))) == Hosts(None)
  {
    assert w + "" == w;
    FirstLetter(w, "a");
    FirstLetter(w, "mx");
    OtherPrefix(w, "ip4:", 0);
    OtherPrefix(w, "ip6:", 0);
    assert |w| == 3 ==> w[..3] == w;
    if !Begins(w, "a") {
      OtherPrefix(w, "all", 0);
      OtherPrefix(w, "a", 0);
    }
  }

  lemma FirstLetter(w: string, kw: string)
    requires kw != ""
    ensures Begins(w, kw) ==> w != "" && Lower(w[0]) == kw[0]
  {
    if Begins(w, kw) { assert Fold(w[..|kw|])[0] == Lower(w[0]); }
  }

  /** No keyword begins with a sign. */
  lemma WordIsPlain(t: Term)
    requires Proper(t)
    ensures ' ' !in t.word + Argument(t.mech)
    ensures t.sign == NoSign || !t.mech.Unknown? ==> t.word != "" && !IsSign(t.word[0])
  {
    var w := t.word;
    assert |Fold(w)| == |w| && forall i :: 0 <= i < |w| ==> Fold(w)[i] == Lower(w[i]);
    FirstLetter(w, "a");
    FirstLetter(w, "mx");
    hide Begins;
  }

  /** A printed term is read back as its qualifier's verdict and its mechanism. */
  lemma TermIsRead(t: Term)
    requires Proper(t)
    ensures ParseTerm(TermText(t)) == (SignVerdict(t.sign), Kept(t.mech))
    ensures TermText(t) != "" && ' ' !in TermText(t)
  {
    hide ParseMech, Proper, Argument, Kept;
    MechIsRead(t);
    WordIsPlain(t);
    var m := t.word + Argument(t.mech);
    if t.sign == NoSign {
      assert TermText(t) == m && m[0] == t.word[0];
    } else {
      assert TermText(t)[1..] == m && TermText(t)[0] == SignText(t.sign)[0];
    }
  }

  lemma {:induction false} StopAtSpace(r: string, i: nat, k: nat)
    requires i <= k <= |r| && (forall j :: i <= j < k ==> r[j] != ' ') && (k < |r| ==> r[k] == ' ')
    ensures SpaceStop(r, i) == k
    decreases k - i
  {
    if i < k { StopAtSpace(r, i + 1, k); }
  }

  /** Words behind spaces are read back, each of them. */
  lemma {:induction false} TokensAreRead(head: string, toks: seq<string>)
    requires forall t :: t in toks ==> t != "" && ' ' !in t
    ensures Tokens(head + Spaced(toks), |head|) == toks
    decreases |toks|
  {
    hide Tokens;
    var r := head + Spaced(toks);
    if toks == [] {
      assert r == head;
      NoTokens(r);
    } else {
      var t, more := toks[0], Spaced(toks[1..]);
      var i, k := |head| + 1, |head| + 1 + |t|;
      assert toks[0] in toks && forall x :: x in toks[1..] ==> x in toks;
      assert r == head + " " + t + more;
      assert r[|head|] == ' ' && r[i..k] == t;
      forall j | i <= j < k ensures r[j] != ' ' {
        assert r[j] == t[j - i] && t[j - i] in t;
      }
      assert more == "" || more[0] == ' ';
      assert k < |r| ==> r[k] == more[0];
      NextToken(r, |head|, k);
      hide Spaced;
      TokensAreRead(head + " " + t, toks[1..]);
      HeadTail(toks);
    }
  }

  lemma NoTokens(r: string)
    ensures Tokens(r, |r|) == []
  {
  }

  lemma NextToken(r: string, i: nat, k: nat)
    requires i + 1 < k <= |r| && r[i] == ' ' && (forall j :: i < j < k ==> r[j] != ' ') && (k < |r| ==> r[k] == ' ')
    ensures Tokens(r, i) == [r[i + 1..k]] + Tokens(r, k)
  {
    StopAtSpace(r, i + 1, k);
  }

  // ---------------------------------------------------------------------
  // The verdict
  // ---------------------------------------------------------------------

  /** What a term decides once it is reached with the counter at `n`: the verdict of
      its qualifier where it matches. An a, mx, include or redirect beyond the tenth
      does not match. An include matches where its target passes; a redirect where
      the target passes, and hands on a Fail or SoftFail of the target. */
  ghost function Decision(env: Env, v: Verdict, m: Mech, def: Option<string>, ip: Address, n: nat): Option<Verdict> {
    match m
    case All => Some(v)
    case Ip4(c) => if InNetwork(ip, 4, env.net4(c)) then Some(v) else None
    case Ip6(c) => if InNetwork(ip, 16, env.net6(c)) then Some(v) else None
    case Hosts(d) => if n < 10 && HasAddress(env, if d.Some? then d else def, ip) then Some(v) else None
    case Include(d) => if n < 10 && EvalDomain(env, d, ip, n + 1).verdict == Pass then Some(v) else None
    case Redirect(d) =>
      if n >= 10 then None
      else
        var target := EvalDomain(env, d, ip, n + 1).verdict;
        if target == Pass then Some(v) else if target == Fail || target == SoftFail then Some(target) else None
    case Unknown => None
  }

  ghost predicate HasAddress(env: Env, dom: Option<string>, ip: Address) {
    dom.Some? && dom.value != "" && env.a(dom.value).Some? && ip in env.a(dom.value).value
  }

  /** The counter behind a term. */
  ghost function After(env: Env, m: Mech, ip: Address, n: nat): nat {
    match m
    case Hosts(_) => n + 1
    case Include(d) => if n < 10 then EvalDomain(env, d, ip, n + 1).lookups else n + 1
    case Redirect(d) => if n < 10 then EvalDomain(env, d, ip, n + 1).lookups else n + 1
    case _ => n
  }

  /** The queries sent for a term. */
  ghost function Sent(env: Env, m: Mech, def: Option<string>, ip: Address, n: nat): nat {
    match m
    case Hosts(d) =>
      var dom := if d.Some? then d else def;
      if n < 10 && dom.Some? && dom.value != "" then 1 else 0
    case Include(d) => if n < 10 then EvalDomain(env, d, ip, n + 1).queries else 0
    case Redirect(d) => if n < 10 then EvalDomain(env, d, ip, n + 1).queries else 0
    case _ => 0
  }

  /** The counter with which term `i` is reached, if no earlier one decides. */
  ghost function Reached(env: Env, ts: seq<Term>, def: Option<string>, ip: Address, n: nat, i: nat): Option<nat>
    requires i <= |ts|
    decreases i
  {
    if i == 0 then Some(n)
    else
      var k := Reached(env, ts, def, ip, n, i - 1);
      if k.None? || TermDecision(env, ts[i - 1], def, ip, k.value).Some? then None
      else Some(After(env, Kept(ts[i - 1].mech), ip, k.value))
  }

  ghost function TermDecision(env: Env, t: Term, def: Option<string>, ip: Address, n: nat): Option<Verdict> {
    Decision(env, SignVerdict(t.sign), Kept(t.mech), def, ip, n)
  }

  lemma MechDecides(env: Env, v: Verdict, m: Mech, def: Option<string>, ip: Address, n: nat)
    ensures var s, d := EvalTerm(env, v, m, def, ip, n), Decision(env, v, m, def, ip, n);
            var k, asked := After(env, m, ip, n), Sent(env, m, def, ip, n);
            if d.Some? then s == Ends(Outcome(d.value, k, asked)) else s == Goes(k, asked)
  {
    hide EvalDomain, InNetwork, HostMatches, HasAddress;
    match m
    case Hosts(d) => AddressMatches(env, if d.Some? then d else def, ip);
    case _ =>
  }

  lemma AddressMatches(env: Env, dom: Option<string>, ip: Address)
    ensures HostMatches(env, dom, ip) <==> HasAddress(env, dom, ip)
  {
  }

  /** A printed record, read term by term from the counter at `n`: the verdict is
      that of the first term that decides, and Neutral where none does. */
  lemma RecordSays(env: Env, ts: seq<Term>, def: Option<string>, ip: Address, n: nat, i: nat)
    requires (forall t :: t in ts ==> Proper(t)) && i <= |ts| && Reached(env, ts, def, ip, n, i).Some?
    ensures var k, r := Reached(env, ts, def, ip, n, i).value, EvalRecord(env, TermTexts(ts), def, ip, n);
            && (i == |ts| ==> r.verdict == Neutral && r.lookups == k)
            && (i < |ts| && TermDecision(env, ts[i], def, ip, k).Some? ==>
                  r.verdict == TermDecision(env, ts[i], def, ip, k).value)
  {
    hide EvalRecord, Proper, TermDecision;
    ReachedRest(env, ts, def, ip, n, i);
    var k := Reached(env, ts, def, ip, n, i).value;
    if i == |ts| {
      assert TermTexts(ts)[i..] == [];
      NoTerms(env, def, ip, k);
    } else {
      assert TermTexts(ts)[i..][0] == TermText(ts[i]) && ts[i] in ts;
      FirstTerm(env, ts[i], TermTexts(ts)[i..], def, ip, k);
    }
  }

  lemma NoTerms(env: Env, def: Option<string>, ip: Address, n: nat)
    ensures EvalRecord(env, [], def, ip, n) == Outcome(Neutral, n, 0)
  {
  }

  /** The term in front either decides or leaves it to the rest. */
  lemma FirstTerm(env: Env, t: Term, toks: seq<string>, def: Option<string>, ip: Address, n: nat)
    requires Proper(t) && toks != [] && toks[0] == TermText(t)
    ensures var d, o := TermDecision(env, t, def, ip, n), EvalRecord(env, toks, def, ip, n);
            var k, asked := After(env, Kept(t.mech), ip, n), Sent(env, Kept(t.mech), def, ip, n);
            if d.Some? then o == Outcome(d.value, k, asked)
            else var rest := EvalRecord(env, toks[1..], def, ip, k);
                 o == Outcome(rest.verdict, rest.lookups, rest.queries + asked)
  {
    hide Proper, TermText, EvalTerm, Decision, After, Sent, ParseTerm, SignVerdict, Kept;
    TermIsRead(t);
    MechDecides(env, SignVerdict(t.sign), Kept(t.mech), def, ip, n);
  }

  /** A term that is reached decides what the record says. */
  lemma {:induction false} ReachedRest(env: Env, ts: seq<Term>, def: Option<string>, ip: Address, n: nat, i: nat)
    requires (forall t :: t in ts ==> Proper(t)) && i <= |ts| && Reached(env, ts, def, ip, n, i).Some?
    ensures var r := EvalRecord(env, TermTexts(ts), def, ip, n);
            var rest := EvalRecord(env, TermTexts(ts)[i..], def, ip, Reached(env, ts, def, ip, n, i).value);
            r.verdict == rest.verdict && r.lookups == rest.lookups
    decreases i
  {
    hide EvalRecord, Proper, TermDecision, After, Sent, Kept, TermText;
    var toks := TermTexts(ts);
    if i == 0 {
      assert toks[0..] == toks;
    } else {
      ReachedRest(env, ts, def, ip, n, i - 1);
      assert toks[i - 1..][0] == TermText(ts[i - 1]) && toks[i - 1..][1..] == toks[i..] && ts[i - 1] in ts;
      FirstTerm(env, ts[i - 1], toks[i - 1..], def, ip, Reached(env, ts, def, ip, n, i - 1).value);
    }
  }

  lemma {:induction false} TextsArePlain(ts: seq<Term>)
    requires forall t :: t in ts ==> Proper(t)
    ensures forall x :: x in TermTexts(ts) ==> x != "" && ' ' !in x
  {
    hide Proper, TermText;
    forall x | x in TermTexts(ts) ensures x != "" && ' ' !in x {
      var i :| 0 <= i < |ts| && TermTexts(ts)[i] == x;
      assert ts[i] in ts;
      TermIsRead(ts[i]);
    }
  }

  /** A check of a domain evaluates its first record that begins with v=spf1, in any
      case, from its text; a domain without one, or none at all, has no record. */
  lemma DomainSays(env: Env, dom: string, ip: Address, n: nat, front: seq<string>, tag: string, ts: seq<Term>,
                   back: seq<string>)
    requires dom != "" && env.txt(dom) == Some(front + [tag + Spaced(TermTexts(ts))] + back)
    requires Fold(tag) == "v=spf1" && (forall t :: t in ts ==> Proper(t))
    requires forall r :: r in front ==> !HasPrefix(r, "v=spf1")
    ensures var o := EvalDomain(env, dom, ip, n);
            var r := EvalRecord(env, TermTexts(ts), Some(dom), ip, n);
            o.verdict == r.verdict && o.lookups == r.lookups && o.queries == r.queries + 1
  {
    hide EvalRecord, Proper, TermTexts, Spaced, Tokens, HasPrefix;
    TextsArePlain(ts);
    TokensAreRead(tag, TermTexts(ts));
    var rec := tag + Spaced(TermTexts(ts));
    TagIsPrefix(tag, Spaced(TermTexts(ts)));
    FirstRecord(front, rec, back);
  }

  lemma TagIsPrefix(tag: string, rest: string)
    requires Fold(tag) == "v=spf1"
    ensures HasPrefix(tag + rest, "v=spf1") && |tag| == 6
  {
    assert |Fold(tag)| == |tag| && (tag + rest)[..|tag|] == tag;
  }

  lemma {:induction false} FirstRecord(front: seq<string>, rec: string, back: seq<string>)
    requires HasPrefix(rec, "v=spf1") && forall r :: r in front ==> !HasPrefix(r, "v=spf1")
    ensures SpfTerms(front + [rec] + back) == Some(Tokens(rec, 6))
  {
    hide HasPrefix, Tokens;
    var all := front + [rec] + back;
    if front == [] {
      assert all[0] == rec;
    } else {
      assert all[0] == front[0] && front[0] in front && all[1..] == front[1..] + [rec] + back;
      FirstRecord(front[1..], rec, back);
    }
  }

  lemma {:induction false} NoRecordSays(env: Env, dom: string, ip: Address, n: nat)
    ensures dom == "" ==> EvalDomain(env, dom, ip, n) == Outcome(NoRecord, n, 0)
    ensures dom != "" && env.txt(dom).None? ==> EvalDomain(env, dom, ip, n) == Outcome(NoRecord, n, 1)
    ensures dom != "" && env.txt(dom).Some? && (forall r :: r in env.txt(dom).value ==> !HasPrefix(r, "v=spf1")) ==>
              EvalDomain(env, dom, ip, n) == Outcome(NoRecord, n, 1)
  {
    hide HasPrefix, EvalRecord;
    if env.txt(dom).Some? && forall r :: r in env.txt(dom).value ==> !HasPrefix(r, "v=spf1") {
      NoTermsFound(env.txt(dom).value);
    }
  }

  lemma {:induction false} NoTermsFound(texts: seq<string>)
    requires forall r :: r in texts ==> !HasPrefix(r, "v=spf1")
    ensures SpfTerms(texts) == None
  {
    hide HasPrefix;
    if texts != [] {
      assert texts[0] in texts && forall r :: r in texts[1..] ==> r in texts;
      NoTermsFound(texts[1..]);
    }
  }

  lemma FoldLower(s: string)
    requires forall i :: 0 <= i < |s| ==> Lower(s[i]) == s[i]
    ensures Fold(s) == s
  {
  }

  /** For one: "v=spf1 -all" refuses every address. */
  lemma DenyAll(env: Env, dom: string, ip: Address)
    requires dom != "" && env.txt(dom) == Some(["v=spf1 -all"])
    ensures EvalDomain(env, dom, ip, 0).verdict == Fail
  {
    FoldLower("all");
    FoldLower("v=spf1");
    var t := Term(Minus, "all", All);
    assert Proper(t) && TermText(t) == "-all";
    assert TermTexts([t]) == ["-all"] by { assert TermTexts([]) == []; }
    assert Spaced(["-all"]) == " -all" by { assert Spaced([]) == ""; }
    assert "v=spf1" + " -all" == "v=spf1 -all";
    assert [] + ["v=spf1 -all"] + [] == ["v=spf1 -all"];
    DomainSays(env, dom, ip, 0, [], "v=spf1", [t], []);
    hide EvalDomain, EvalRecord;
    assert Reached(env, [t], Some(dom), ip, 0, 0) == Some(0);
    RecordSays(env, [t], Some(dom), ip, 0, 0);
  }

  // ---------------------------------------------------------------------
  // Every record is a printed one
  // ---------------------------------------------------------------------

  /** The keyword, if there is one with an argument, and its argument. */
  function MechOf(w: string): (nat, Mech)
    ensures MechOf(w).0 <= |w|
  {
    if Begins(w, "ip4:") then (4, Ip4(w[4..]))
    else if Begins(w, "ip6:") then (4, Ip6(w[4..]))
    else if Begins(w, "redirect=") then (9, Redirect(w[9..]))
    else if Begins(w, "include:") then (8, Include(w[8..]))
    else if Begins(w, "a") && |w| >= 2 && w[1] == ':' then (1, Hosts(Some(w[2..])))
    else if Begins(w, "mx") && |w| >= 3 && w[2] == ':' then (2, Hosts(Some(w[3..])))
    else (|w|, if Fold(w) == "all" then All else if OwnHosts(w) then Hosts(None) else Unknown)
  }

  lemma MechOfParts(w: string)
    ensures var (n, m) := MechOf(w); w[..n] + Argument(m) == w
  {
    var (n, m) := MechOf(w);
    assert w == w[..n] + w[n..] && w[..|w|] == w;
    assert Argument(m) == w[n..];
    hide Begins, Fold;
  }

  lemma MechOfFits(w: string, s: Qualifier)
    requires s == NoSign ==> w != "" && !IsSign(w[0])
    ensures var (n, m) := MechOf(w); WordFits(Term(s, w[..n], m))
  {
    assert w[..|w|] == w;
    hide Fold, IsSign;
  }

  lemma MechOfIsProper(w: string, s: Qualifier)
    requires ' ' !in w && (s == NoSign ==> w != "" && !IsSign(w[0]))
    ensures var (n, m) := MechOf(w); Proper(Term(s, w[..n], m))
  {
    hide MechOf, WordFits, Argument;
    var (n, m) := MechOf(w);
    MechOfParts(w);
    MechOfFits(w, s);
    assert forall c :: c in w[..n] || c in Argument(m) ==> c in w[..n] + Argument(m);
  }

  lemma EveryToken(tok: string) returns (t: Term)
    requires tok != "" && ' ' !in tok
    ensures Proper(t) && TermText(t) == tok
  {
    hide Proper, Argument, MechOf;
    var s := if tok[0] == '+' then Plus else if tok[0] == '-' then Minus else if tok[0] == '~' then Tilde
             else if tok[0] == '?' then Question else NoSign;
    var w := if s == NoSign then tok else tok[1..];
    assert tok == SignText(s) + w;
    MechOfIsProper(w, s);
    MechOfParts(w);
    t := Term(s, w[..MechOf(w).0], MechOf(w).1);
  }

  lemma {:induction false} PlainToStop(r: string, i: nat)
    requires i <= |r|
    ensures ' ' !in r[i..SpaceStop(r, i)]
    decreases |r| - i
  {
    if i < |r| && r[i] != ' ' {
      PlainToStop(r, i + 1);
      assert r[i..SpaceStop(r, i)] == [r[i]] + r[i + 1..SpaceStop(r, i)];
    }
  }

  lemma {:induction false} TokensArePlain(r: string, i: nat)
    requires i <= |r|
    ensures forall t :: t in Tokens(r, i) ==> t != "" && ' ' !in t
    decreases |r| - i
  {
    if i < |r| {
      var k := if r[i] == ' ' then i + 1 else SpaceStop(r, i);
      PlainToStop(r, i);
      hide SpaceStop;
      TokensArePlain(r, k);
    }
  }

  /** So every record, whatever its text, is read as terms, and `RecordSays` gives its
      verdict. */
  lemma {:induction false} EveryRecord(toks: seq<string>) returns (ts: seq<Term>)
    requires forall t :: t in toks ==> t != "" && ' ' !in t
    ensures (forall t :: t in ts ==> Proper(t)) && TermTexts(ts) == toks
  {
    hide Proper, TermText;
    ts := [];
    if toks != [] {
      assert toks[0] in toks && forall x :: x in toks[1..] ==> x in toks;
      var t := EveryToken(toks[0]);
      var more := EveryRecord(toks[1..]);
      ts := [t] + more;
      assert ts[1..] == more;
    }
  }

  /** So a check of any domain is the reading of the terms of its first record. */
  lemma AnyDomainSays(env: Env, dom: string, ip: Address, n: nat, front: seq<string>, rec: string,
                      back: seq<string>) returns (ts: seq<Term>)
    requires dom != "" && env.txt(dom) == Some(front + [rec] + back)
    requires HasPrefix(rec, "v=spf1") && forall r :: r in front ==> !HasPrefix(r, "v=spf1")
    ensures (forall t :: t in ts ==> Proper(t)) && TermTexts(ts) == Tokens(rec, 6)
    ensures EvalDomain(env, dom, ip, n).verdict == EvalRecord(env, TermTexts(ts), Some(dom), ip, n).verdict
  {
    hide EvalRecord, Proper, TermTexts, Tokens;
    FirstRecord(front, rec, back);
    TokensArePlain(rec, 6);
    ts := EveryRecord(Tokens(rec, 6));
  }

  /** Exactly these words ask for the hosts of the domain itself: a prefix length
      behind a or mx is not looked at. */
  lemma OwnHostsIff(w: string)
    ensures ParseMech(w) == Hosts(None) <==> OwnHosts(w)
    ensures ParseMech("a/24") == ParseMech("a")
  {
    if OwnHosts(w) {
      OwnHostsAreRead(w);
      assert w + "" == w;
    }
    OwnHostsAreRead("a/24");
    OwnHostsAreRead("a");
    assert "a/24" + "" == "a/24" && "a" + "" == "a";
    assert |w| == 3 ==> w[..3] == w;
  }
}
