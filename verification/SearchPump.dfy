/** The SEARCH generator: a scan cut into slices by a byte budget. */
module SearchPump {
  import opened Common
  import opened Search
  import Kmp

  const BUDGET: nat := 3 * 1024 * 1024
  const MSGCOST: nat := 512
  const HDR_CAP: nat := 256 * 1024

  /** A message of the view and the state of its file: whether its header cache
      counts, whether the file can be examined, whether the cached block is still
      fresh, and what a bounded header read and a whole read would return. */
  datatype AnyEntry = Entry(m: Mail, valid: bool, present: bool, current: bool,
                            block: Option<string>, whole: Option<string>)

  /** A header read returns at most the cap. */
  type Entry = e: AnyEntry | e.block.Some? ==> |e.block.value| <= HDR_CAP
    witness Entry(Mail(Info(0, 0, 0, 0, 0, {}, false), None, _ => ""), false, false, false, None, None)

  /** Cached values of a header block. */
  function Extract(get: Lookup, block: string): Field -> string {
    (f: Field) => match get(block, FieldName(f)) case Some(v) => v case None => ""
  }

  datatype Ensured = Cached | Exhausted | Failed

  /** The message once its header cache is ensured, budget permitting. */
  function Warm(get: Lookup, e: Entry): Entry {
    if e.valid || !e.present then e
    else if e.current then e.(valid := true)
    else if e.block.Some? then e.(m := e.m.(cache := Extract(get, e.block.value)), valid := true)
    else e
  }

  /** What the matcher is handed; whole files are read up to `cut` bytes. */
  function Loaded(get: Lookup, mode: Mode, e: Entry, cut: nat): Doc {
    match mode
    case WholeFile => Doc(e.m, e.valid, Prefix(e, cut))
    case CacheOnly => Doc(Warm(get, e).m, Warm(get, e).valid, None)
    case HeaderBlock => Doc(e.m, e.valid, BlockOf(e))
    case Nothing => Doc(e.m, e.valid, None)
  }

  /** A whole-file read, cut at the budget. */
  function Prefix(e: Entry, cut: nat): (r: Option<string>)
    ensures r.Some? ==> |r.value| <= cut
  {
    if e.whole.Some? && |e.whole.value| > cut then Some(e.whole.value[..cut]) else e.whole
  }

  /** Budget a scan of whole files has left after a message read up to `cut` bytes. */
  function Rest(e: Entry, cut: nat): nat {
    match Prefix(e, cut)
    case None => cut
    case Some(text) => cut - |text|
  }

  /** Budget left before message `i`, in a scan of whole files whose slice began
      at message `a`, and the bytes of `i` that are searched: a budget that does
      not pay for a message ends the slice, and the next one has a full budget. */
  ghost function BudgetAt(es: seq<Entry>, a: nat, i: nat): nat
    requires a <= i <= |es|
    decreases i, 0
  {
    if i == a then BUDGET else Rest(es[i - 1], CutAt(es, a, i - 1))
  }

  ghost function CutAt(es: seq<Entry>, a: nat, i: nat): nat
    requires a <= i < |es|
    decreases i, 1
  {
    (if BudgetAt(es, a, i) < MSGCOST then BUDGET else BudgetAt(es, a, i)) - MSGCOST
  }

  /** Where a slice ends, the next one is as if it were the first. */
  ghost predicate SliceStart(mode: Mode, es: seq<Entry>, a: nat) {
    a <= |es| && (mode == WholeFile && a != 0 ==> BudgetAt(es, 0, a) < MSGCOST)
  }

  lemma {:induction false} CutRestarts(es: seq<Entry>, a: nat, i: nat)
    requires SliceStart(WholeFile, es, a) && a <= i < |es|
    ensures CutAt(es, a, i) == CutAt(es, 0, i)
    decreases i
  {
    if a < i { CutRestarts(es, a, i - 1); }
  }

  lemma {:induction false} CutFrame(es: seq<Entry>, fs: seq<Entry>, a: nat, i: nat)
    requires a <= i < |es| == |fs| && forall k :: a <= k <= i ==> es[k] == fs[k]
    ensures CutAt(es, a, i) == CutAt(fs, a, i) && BudgetAt(es, a, i) == BudgetAt(fs, a, i)
    decreases i
  {
    if a < i { CutFrame(es, fs, a, i - 1); }
  }

  /** The bounded header read, with the whole file behind a block at the cap. */
  function BlockOf(e: Entry): Option<string> {
    if e.block.Some? && |e.block.value| >= HDR_CAP && e.whole.Some? then e.whole else e.block
  }

  /** The reply to the messages `a` up to `b` in a scan whose slice began at `s`:
      the numbers of exactly those that match. */
  ghost function Hits(get: Lookup, k: Key, uid: bool, es: seq<Entry>, s: nat, a: nat, b: nat): string
    requires s <= a <= b <= |es|
    decreases b - a
  {
    if a == b then ""
    else Hits(get, k, uid, es, s, a, b - 1) + Hit(get, k, uid, es[b - 1], CutAt(es, s, b - 1), b - 1)
  }

  ghost function Hit(get: Lookup, k: Key, uid: bool, e: Entry, cut: nat, i: nat): string {
    if Match(get, k, Loaded(get, ModeOf(k), e, cut)) then " " + Digits(if uid then e.m.info.uid else i + 1) else ""
  }

  lemma HitsLast(get: Lookup, k: Key, uid: bool, es: seq<Entry>, s: nat, a: nat, b: nat)
    requires s <= a < b <= |es|
    ensures Hits(get, k, uid, es, s, a, b)
         == Hits(get, k, uid, es, s, a, b - 1) + Hit(get, k, uid, es[b - 1], CutAt(es, s, b - 1), b - 1)
  {
    hide Hit, CutAt;
  }

  lemma {:induction false} HitsJoin(get: Lookup, k: Key, uid: bool, es: seq<Entry>, a: nat, b: nat, c: nat)
    requires a <= b <= c <= |es| && SliceStart(ModeOf(k), es, b)
    ensures Hits(get, k, uid, es, 0, a, b) + Hits(get, k, uid, es, b, b, c) == Hits(get, k, uid, es, 0, a, c)
    decreases c
  {
    hide Hit, Hits, ModeOf, CutAt;
    if b < c {
      var x, y := Hits(get, k, uid, es, 0, a, b), Hits(get, k, uid, es, b, b, c - 1);
      var h := Hit(get, k, uid, es[c - 1], CutAt(es, b, c - 1), c - 1);
      HitRestarts(get, k, uid, es, b, c - 1);
      HitsLast(get, k, uid, es, b, b, c);
      HitsLast(get, k, uid, es, 0, a, c);
      HitsJoin(get, k, uid, es, a, b, c - 1);
      Assoc(x, y, h);
    } else {
      HitsNone(get, k, uid, es, b);
    }
  }

  lemma HitRestarts(get: Lookup, k: Key, uid: bool, es: seq<Entry>, s: nat, i: nat)
    requires s <= i < |es| && SliceStart(ModeOf(k), es, s)
    ensures Hit(get, k, uid, es[i], CutAt(es, s, i), i) == Hit(get, k, uid, es[i], CutAt(es, 0, i), i)
  {
    hide Match, ModeOf, CutAt;
    if ModeOf(k) == WholeFile { CutRestarts(es, s, i); }
  }

  /** Only the messages looked at matter. */
  lemma {:induction false} HitsFrame(get: Lookup, k: Key, uid: bool, es: seq<Entry>, fs: seq<Entry>, s: nat, b: nat)
    requires s <= b <= |es| == |fs| && forall i :: s <= i < |es| ==> es[i] == fs[i]
    ensures Hits(get, k, uid, es, s, s, b) == Hits(get, k, uid, fs, s, s, b)
    decreases b
  {
    hide Hits, Hit, CutAt, BudgetAt;
    if s < b {
      HitsFrame(get, k, uid, es, fs, s, b - 1);
      CutFrame(es, fs, s, b - 1);
      HitsLast(get, k, uid, es, s, s, b);
      HitsLast(get, k, uid, fs, s, s, b);
    } else {
      HitsNone(get, k, uid, es, s);
      HitsNone(get, k, uid, fs, s);
    }
  }

  class SearchGen {
    const get: Lookup
    const prog: Key
    const uid: bool
    var entries: seq<Entry>
    var i: nat
    var out: string
    var done: bool

    constructor (get: Lookup, prog: Key, uid: bool, entries: seq<Entry>)
      ensures this.get == get && this.prog == prog && this.uid == uid && this.entries == entries
      ensures i == 0 && out == "* SEARCH" && !done
    {
      this.get, this.prog, this.uid, this.entries := get, prog, uid, entries;
      i, out, done := 0, "* SEARCH", false;
    }

    /** imapd_mail_ensure_hdrs for the current message. `read` is the size of the
        header block it extracted. */
    method EnsureHeaders(budget: nat) returns (r: Ensured, rest: nat, read: nat)
      requires i < |entries|
      modifies this`entries
      ensures r == Exhausted ==> entries == old(entries) && budget < MSGCOST && read == 0
      ensures r != Exhausted ==> entries == old(entries)[i := Warm(get, old(entries)[i])]
      ensures read <= HDR_CAP && (read == 0 || budget >= MSGCOST)
      ensures rest + read <= budget || rest == 0
    {
      var e := entries[i];
      rest, read := budget, 0;
      if e.valid { return Cached, rest, read; }
      if !e.present { return Failed, rest, read; }
      if e.current {
        if budget < MSGCOST { return Exhausted, rest, read; }
        entries := entries[i := e.(valid := true)];
        return Cached, budget - MSGCOST, read;
      }
      if budget < MSGCOST { return Exhausted, rest, read; }
      if e.block.None? { return Failed, rest, read; }
      read := |e.block.value|;
      var cost := MSGCOST + read;
      rest := if budget < cost then 0 else budget - cost;
      entries := entries[i := e.(m := e.m.(cache := Extract(get, e.block.value)), valid := true)];
      r := Cached;
    }

    /** The content of the current message, as the mode asks; `ok` is false when the
        budget does not allow it. */
    method Load(mode: Mode, budget: nat) returns (ok: bool, d: Doc, rest: nat, read: nat)
      requires i < |entries|
      modifies this`entries
      ensures |entries| == |old(entries)| && forall k :: 0 <= k < |entries| && k != i ==> entries[k] == old(entries)[k]
      ensures !ok ==> entries == old(entries) && budget < MSGCOST && read == 0
      ensures d.m.info == old(entries)[i].m.info
      ensures ok ==> d == Loaded(get, mode, old(entries)[i], budget)
      ensures mode == WholeFile ==> ok && rest == Rest(old(entries)[i], budget)
      ensures read <= HDR_CAP && (read == 0 || budget >= MSGCOST)
      ensures rest <= budget && (rest + read <= budget || rest == 0)
    {
      ok, rest, read := true, budget, 0;
      var msg: Option<string> := None;
      match mode {
        case WholeFile =>
          msg := entries[i].whole;
          if msg.Some? && |msg.value| > budget { msg := Some(msg.value[..budget]); }
        case CacheOnly =>
          var r;
          r, rest, read := EnsureHeaders(budget);
          ok := r != Exhausted;
        case HeaderBlock =>
          msg := BlockOf(entries[i]);
        case Nothing =>
      }
      if msg.Some? {
        rest := if |msg.value| > rest then 0 else rest - |msg.value|;
      }
      d := Doc(entries[i].m, entries[i].valid, msg);
    }

    /** The entries from `i` on are as they were. */
    ghost predicate Untouched(es: seq<Entry>)
      reads this
    {
      |entries| == |es| && i <= |entries| && forall k :: i <= k < |es| ==> entries[k] == es[k]
    }

    /** One message: load, match, and record its number. */
    method Visit(budget: nat) returns (ok: bool, rest: nat, read: nat)
      requires i < |entries|
      modifies this`entries, this`i, this`out
      ensures !ok ==> entries == old(entries) && i == old(i) && out == old(out) && budget < MSGCOST && read == 0
      ensures ok ==> i == old(i) + 1 && Untouched(old(entries))
      ensures ok ==> out == old(out) + Hit(get, prog, uid, old(entries)[old(i)], budget, old(i))
      ensures ModeOf(prog) == WholeFile ==> ok && rest == Rest(old(entries)[old(i)], budget)
      ensures read <= HDR_CAP && (read == 0 || budget >= MSGCOST)
      ensures rest <= budget && (rest + read <= budget || rest == 0)
    {
      hide ModeOf, Match, Loaded;
      var d;
      ok, d, rest, read := Load(ModeOf(prog), budget);
      if !ok { return; }
      var hit := Evaluate(get, prog, d);
      assert out + "" == out;
      if hit {
        out := out + (" " + Digits(if uid then d.m.info.uid else i + 1));
      }
      i := i + 1;
    }

    /** One slice of the scan: it adds the numbers of exactly the matching messages
        it passes, always passes one or ends the scan, and never extracts more
        header bytes than the budget and one header block. A search of whole files
        goes on until the budget is spent. */
    method Slice() returns (extracted: nat)
      requires !done && i <= |entries|
      modifies this
      ensures old(i) <= i && Untouched(old(entries))
      ensures done == (i == |entries|) && (done || i > old(i))
      ensures out == old(out) + Hits(get, prog, uid, old(entries), old(i), old(i), i) + LineEnd(done)
      ensures ModeOf(prog) == WholeFile && !done ==> BudgetAt(old(entries), old(i), i) < MSGCOST
      ensures extracted <= BUDGET + HDR_CAP
    {
      hide ModeOf, Hit, Hits, BudgetAt;
      var budget: nat := BUDGET;
      extracted := 0;
      HitsNone(get, prog, uid, entries, i);
      FullBudget(entries, i);
      assert out + "" == out;
      while i < |entries|
        invariant old(i) <= i && Untouched(old(entries)) && !done
        invariant budget <= BUDGET && (i == old(i) ==> budget == BUDGET)
        invariant extracted + budget <= BUDGET || (budget == 0 && extracted <= BUDGET + HDR_CAP)
        invariant out == old(out) + Hits(get, prog, uid, old(entries), old(i), old(i), i)
        invariant ModeOf(prog) == WholeFile ==> budget == BudgetAt(old(entries), old(i), i)
        decreases |entries| - i
      {
        assert out + LineEnd(false) == out;
        if budget < MSGCOST { return; }
        HitsNext(get, prog, uid, old(entries), old(i), i, budget, old(out));
        var ok, rest, read := Visit(budget - MSGCOST);
        if !ok { return; }
        budget := rest;
        extracted := extracted + read;
      }
      out := out + "\r\n";
      done := true;
    }
  }

  function LineEnd(done: bool): string {
    if done then "\r\n" else ""
  }

  lemma HitsNext(get: Lookup, k: Key, uid: bool, es: seq<Entry>, s: nat, i: nat, budget: nat, before: string)
    requires s <= i < |es| && budget >= MSGCOST
    requires ModeOf(k) == WholeFile ==> budget == BudgetAt(es, s, i)
    ensures before + Hits(get, k, uid, es, s, s, i) + Hit(get, k, uid, es[i], budget - MSGCOST, i)
         == before + Hits(get, k, uid, es, s, s, i + 1)
    ensures ModeOf(k) == WholeFile ==> BudgetAt(es, s, i + 1) == Rest(es[i], budget - MSGCOST)
  {
    hide BudgetAt, Match, ModeOf;
    var x, y := Hits(get, k, uid, es, s, s, i), Hit(get, k, uid, es[i], budget - MSGCOST, i);
    if ModeOf(k) == WholeFile { NextBudget(es, s, i); }
    assert y == Hit(get, k, uid, es[i], CutAt(es, s, i), i);
    assert before + x + y == before + (x + y);
  }

  lemma FullBudget(es: seq<Entry>, s: nat)
    requires s <= |es|
    ensures BudgetAt(es, s, s) == BUDGET
  {
  }

  lemma NextBudget(es: seq<Entry>, s: nat, i: nat)
    requires s <= i < |es|
    ensures BudgetAt(es, s, i + 1) == Rest(es[i], CutAt(es, s, i))
  {
  }

  /** However the scan is sliced, the reply is the list of exactly the matching
      messages in ascending order. */
  method RunSearch(get: Lookup, prog: Key, uid: bool, entries: seq<Entry>) returns (out: string, slices: nat)
    ensures out == "* SEARCH" + Hits(get, prog, uid, entries, 0, 0, |entries|) + "\r\n"
    ensures slices <= |entries| + 1
  {
    hide ModeOf, Hits, BudgetAt;
    var g := new SearchGen(get, prog, uid, entries);
    slices := 0;
    HitsNone(get, prog, uid, entries, 0);
    assert Reply("", false) == "* SEARCH";
    while !g.done
      invariant g.get == get && g.prog == prog && g.uid == uid
      invariant g.Untouched(entries)
      invariant slices <= g.i + (if g.done then 1 else 0)
      invariant g.done ==> g.i == |entries|
      invariant !g.done ==> SliceStart(ModeOf(prog), entries, g.i)
      invariant g.out == Reply(Hits(get, prog, uid, entries, 0, 0, g.i), g.done)
      decreases !g.done, |entries| - g.i
    {
      ghost var a, before := g.i, g.entries;
      var _ := g.Slice();
      slices := slices + 1;
      HitsFrame(get, prog, uid, before, entries, a, g.i);
      HitsJoin(get, prog, uid, entries, 0, a, g.i);
      ReplyJoin(Hits(get, prog, uid, entries, 0, 0, a), Hits(get, prog, uid, entries, a, a, g.i), g.done);
      if ModeOf(prog) == WholeFile && !g.done { NextStart(before, entries, a, g.i); }
    }
    out := g.out;
  }

  /** The budget of a slice that began at a slice's end is that of the whole scan. */
  lemma NextStart(es: seq<Entry>, fs: seq<Entry>, a: nat, b: nat)
    requires SliceStart(WholeFile, fs, a) && a < b <= |es| == |fs|
    requires (forall i :: a <= i < |es| ==> es[i] == fs[i]) && BudgetAt(es, a, b) < MSGCOST
    ensures SliceStart(WholeFile, fs, b)
  {
    CutFrame(es, fs, a, b - 1);
    CutRestarts(fs, a, b - 1);
  }

  function Reply(hits: string, done: bool): string {
    "* SEARCH" + hits + LineEnd(done)
  }

  lemma ReplyJoin(x: string, y: string, done: bool)
    ensures Reply(x, false) + y + LineEnd(done) == Reply(x + y, done)
  {
    assert "* SEARCH" + x + "" + y == "* SEARCH" + (x + y);
  }

  lemma HitsNone(get: Lookup, k: Key, uid: bool, es: seq<Entry>, a: nat)
    requires a <= |es|
    ensures Hits(get, k, uid, es, a, a, a) == ""
  {
  }

  // ---------------------------------------------------------------------
  // The reply and the meaning of the program
  // ---------------------------------------------------------------------

  /** The reply to one message, its file at hand. */
  ghost function Answer(get: Lookup, k: Key, uid: bool, e: Entry, file: string, i: nat): string {
    if Means(get, k, e.m, file) then " " + Digits(if uid then e.m.info.uid else i + 1) else ""
  }

  /** The numbers of the messages the program is true of, files at hand. */
  ghost function Answers(get: Lookup, k: Key, uid: bool, es: seq<Entry>, files: seq<string>, n: nat): string
    requires n <= |es| == |files|
  {
    if n == 0 then ""
    else Answers(get, k, uid, es, files, n - 1) + Answer(get, k, uid, es[n - 1], files[n - 1], n - 1)
  }

  lemma MeansFrame(get: Lookup, k: Key, m: Mail, n: Mail, file: string)
    requires m.info == n.info
    ensures Means(get, k, m, file) == Means(get, k, n, file)
  {
  }

  /** What the matcher is handed for message `i` in the course of the scan. */
  ghost function Handed(get: Lookup, k: Key, es: seq<Entry>, i: nat): Doc
    requires i < |es|
  {
    Loaded(get, ModeOf(k), es[i], CutAt(es, 0, i))
  }

  /** The index, and the cache where it counts, are about the file. */
  ghost predicate About(get: Lookup, e: Entry, file: string) {
    FoldsNames(get, file) && IndexHolds(get, e.m, file) && (e.valid ==> CacheHolds(get, e.m, file))
  }

  ghost predicate LooksUpLike(get: Lookup, block: string, file: string) {
    forall n :: get(block, n) == get(file, n)
  }

  /** What the mode reads of the message is there. For a whole file: it is readable
      and fits the budget. For a header block: below the cap it looks up like the
      file, at the cap the whole file is read. For the cache: it counts, or the file
      can be examined and is as it was when the cache was filled from it, or has a
      header block that looks up like it. */
  ghost predicate Readable(get: Lookup, mode: Mode, e: Entry, file: string, cut: nat) {
    match mode
    case WholeFile => e.whole == Some(file) && |file| <= cut
    case HeaderBlock =>
      && e.block.Some?
      && if |e.block.value| < HDR_CAP then LooksUpLike(get, e.block.value, file) else e.whole == Some(file)
    case CacheOnly =>
      || e.valid
      || (e.present && if e.current then CacheHolds(get, e.m, file)
                       else e.block.Some? && LooksUpLike(get, e.block.value, file))
    case Nothing => true
  }

  /** Then what the matcher is handed is about the file. */
  lemma ReadableIsHonest(get: Lookup, mode: Mode, e: Entry, file: string, cut: nat)
    requires About(get, e, file) && Readable(get, mode, e, file, cut)
    ensures Honest(get, mode, Loaded(get, mode, e, cut), file)
    ensures Loaded(get, mode, e, cut).m.info == e.m.info && Loaded(get, mode, e, cut).m.mid == e.m.mid
  {
    if mode == CacheOnly && !e.valid && !e.current {
      ExtractHolds(get, e, file);
    }
    hide IndexHolds, FoldsNames, CacheHolds;
  }

  /** The sliced scan answers what the program means on the whole messages, when
      index and cache are about the same files and what is read of them is there. */
  lemma HitsAreAnswers(get: Lookup, k: Key, uid: bool, es: seq<Entry>, files: seq<string>, n: nat)
    requires n <= |es| == |files|
    requires forall i :: 0 <= i < |es| ==> About(get, es[i], files[i])
    requires forall i :: 0 <= i < |es| ==> Readable(get, ModeOf(k), es[i], files[i], CutAt(es, 0, i))
    requires forall i :: 0 <= i < |es| ==> NeedlesOk(get, k, Handed(get, k, es, i), files[i])
    ensures Hits(get, k, uid, es, 0, 0, n) == Answers(get, k, uid, es, files, n)
  {
    hide Hits, CutAt, Answers, Honest, NeedlesOk, Loaded, ModeOf, About, Readable;
    forall i | 0 <= i < |es| ensures Honest(get, ModeOf(k), Handed(get, k, es, i), files[i]) {
      ReadableIsHonest(get, ModeOf(k), es[i], files[i], CutAt(es, 0, i));
    }
    HonestHitsAreAnswers(get, k, uid, es, files, n);
  }

  lemma {:induction false} HonestHitsAreAnswers(get: Lookup, k: Key, uid: bool, es: seq<Entry>, files: seq<string>,
                                                n: nat)
    requires n <= |es| == |files|
    requires forall i :: 0 <= i < |es| ==> Honest(get, ModeOf(k), Handed(get, k, es, i), files[i])
    requires forall i :: 0 <= i < |es| ==> NeedlesOk(get, k, Handed(get, k, es, i), files[i])
    ensures Hits(get, k, uid, es, 0, 0, n) == Answers(get, k, uid, es, files, n)
    decreases n
  {
    hide Hits, Hit, CutAt, Answers, Honest, NeedlesOk, Match, Means, Loaded, ModeOf;
    if n > 0 {
      HonestHitsAreAnswers(get, k, uid, es, files, n - 1);
      HitIsAnswer(get, k, uid, es, files[n - 1], n - 1);
      HitsLast(get, k, uid, es, 0, 0, n);
      AnswersLast(get, k, uid, es, files, n);
    } else {
      HitsNone(get, k, uid, es, 0);
      AnswersNone(get, k, uid, es, files);
    }
  }

  lemma AnswersLast(get: Lookup, k: Key, uid: bool, es: seq<Entry>, files: seq<string>, n: nat)
    requires 0 < n <= |es| == |files|
    ensures Answers(get, k, uid, es, files, n)
         == Answers(get, k, uid, es, files, n - 1) + Answer(get, k, uid, es[n - 1], files[n - 1], n - 1)
  {
    hide Answer;
  }

  lemma AnswersNone(get: Lookup, k: Key, uid: bool, es: seq<Entry>, files: seq<string>)
    requires |es| == |files|
    ensures Answers(get, k, uid, es, files, 0) == ""
  {
  }

  lemma HitIsAnswer(get: Lookup, k: Key, uid: bool, es: seq<Entry>, file: string, i: nat)
    requires i < |es| && Honest(get, ModeOf(k), Handed(get, k, es, i), file)
    requires NeedlesOk(get, k, Handed(get, k, es, i), file)
    ensures Hit(get, k, uid, es[i], CutAt(es, 0, i), i) == Answer(get, k, uid, es[i], file, i)
  {
    var d := Handed(get, k, es, i);
    hide CutAt, Honest, NeedlesOk, Match, Means, ModeOf;
    ChosenModeAgrees(get, k, d, file);
    MeansFrame(get, k, d.m, es[i].m, file);
  }

  /** A header read below the cap makes the extracted cache hold the file's values. */
  lemma ExtractHolds(get: Lookup, e: Entry, file: string)
    requires e.present && !e.valid && !e.current && e.block.Some? && LooksUpLike(get, e.block.value, file)
    ensures Warm(get, e).valid && CacheHolds(get, Warm(get, e).m, file)
  {
    var w := Warm(get, e);
    forall f ensures Stands(w.m.cache(f), get(file, FieldName(f))) {
      assert get(e.block.value, FieldName(f)) == get(file, FieldName(f));
    }
  }

  // ---------------------------------------------------------------------
  // Files cut at the budget
  // ---------------------------------------------------------------------

  /** Every content key stands under an even number of NOTs, or under an odd one. */
  predicate Signed(k: Key, positive: bool) {
    match k
    case Null => true
    case Meta(_) => true
    case Not(a) => Signed(a, !positive)
    case Or(a, b) => Signed(a, positive) && Signed(b, positive)
    case And(a, b) => Signed(a, positive) && Signed(b, positive)
    case _ => positive
  }

  /** Whether a key on that header is answered from the bytes read. */
  predicate FromBytes(m: Mail, valid: bool, name: string) {
    !(SameName(name, MESSAGE_ID) && m.mid.Some?) && !(valid && FieldOf(name).Some?)
  }

  /** What is looked up in the first bytes of a file is found in what is looked up
      in the file: every header value, and the body. */
  ghost predicate CutKeeps(get: Lookup, m: Mail, valid: bool, part: string, file: string) {
    && (forall name :: FromBytes(m, valid, name) && get(part, name).Some? ==>
          get(file, name).Some? && Found(get(file, name).value, get(part, name).value))
    && Found(file[HeaderEnd(file)..], part[HeaderEnd(part)..])
  }

  /** A program for which files are read, all of one sign. */
  predicate Asked(k: Key, positive: bool) {
    ModeOf(k) == WholeFile && Signed(k, positive)
  }

  /** A match on `a` is one on `b`. */
  ghost predicate Implies(get: Lookup, k: Key, m: Mail, valid: bool, a: string, b: string) {
    Match(get, k, Doc(m, valid, Some(a))) ==> Match(get, k, Doc(m, valid, Some(b)))
  }

  lemma FoundThrough(a: string, b: string, needle: string)
    requires Found(b, a) && Found(a, needle)
    ensures Found(b, needle)
  {
    var p :| Kmp.MatchAt(b, a, p);
    var q :| Kmp.MatchAt(a, needle, q);
    forall k | 0 <= k < |needle| ensures Lower(b[p + q + k]) == Lower(needle[k]) {
      assert Lower(b[p + (q + k)]) == Lower(a[q + k]);
    }
    assert Kmp.MatchAt(b, needle, p + q);
  }

  lemma FoundInSelf(s: string)
    ensures Found(s, s)
  {
    assert Kmp.MatchAt(s, s, 0);
  }

  lemma FoundInWhole(file: string, n: nat)
    requires n <= |file|
    ensures Found(file, file[..n])
  {
    assert Kmp.MatchAt(file, file[..n], 0);
  }

  lemma {:induction false} CutMonotone(get: Lookup, k: Key, m: Mail, valid: bool, part: string, file: string,
                                       positive: bool)
    requires Signed(k, positive) && CutKeeps(get, m, valid, part, file) && Found(file, part)
    ensures if positive then Implies(get, k, m, valid, part, file) else Implies(get, k, m, valid, file, part)
  {
    match k
    case Word(f, s) =>
      FieldOfName(f);
      FieldIsNoId(f);
      CutHeader(get, m, valid, part, file, FieldName(f), false, s);
    case Header(h, s) => CutHeader(get, m, valid, part, file, h, SameName(h, MESSAGE_ID), s);
    case Body(s) =>
      if Found(part[HeaderEnd(part)..], s) {
        FoundThrough(part[HeaderEnd(part)..], file[HeaderEnd(file)..], s);
      }
    case Text(s) =>
      if Found(part, s) { FoundThrough(part, file, s); }
    case Not(a) => CutMonotone(get, a, m, valid, part, file, !positive);
    case Or(a, b) =>
      CutMonotone(get, a, m, valid, part, file, positive);
      CutMonotone(get, b, m, valid, part, file, positive);
    case And(a, b) =>
      CutMonotone(get, a, m, valid, part, file, positive);
      CutMonotone(get, b, m, valid, part, file, positive);
    case _ =>
  }

  lemma CutHeader(get: Lookup, m: Mail, valid: bool, part: string, file: string, name: string, byId: bool, s: string)
    requires CutKeeps(get, m, valid, part, file) && byId == SameName(name, MESSAGE_ID)
    ensures MatchHeader(get, Doc(m, valid, Some(part)), name, byId, s)
        ==> MatchHeader(get, Doc(m, valid, Some(file)), name, byId, s)
  {
    if FromBytes(m, valid, name) && get(part, name).Some? && Found(get(part, name).value, s) {
      FoundThrough(get(part, name).value, get(file, name).value, s);
    }
  }

  /** A search of a file's first bytes only loses matches, whatever program without
      a negated content key is asked: this holds of a message and a cut if and only
      if each header value and the body of those bytes are found in the file's. */
  lemma CutOnlyLosesIff(get: Lookup, m: Mail, valid: bool, file: string, n: nat)
    requires n <= |file|
    ensures (forall k :: Asked(k, true) ==> Implies(get, k, m, valid, file[..n], file))
       <==> CutKeeps(get, m, valid, file[..n], file)
  {
    var part := file[..n];
    hide Implies, CutKeeps, Signed, ModeOf;
    if CutKeeps(get, m, valid, part, file) {
      FoundInWhole(file, n);
      forall k | Asked(k, true) ensures Implies(get, k, m, valid, part, file) {
        CutMonotone(get, k, m, valid, part, file, true);
      }
    }
    if forall k :: Asked(k, true) ==> Implies(get, k, m, valid, part, file) {
      OwnKeysKeep(get, m, valid, part, file);
    }
  }

  /** Keys that ask for the cut file's own values tell when these are not the file's. */
  lemma OwnKeysKeep(get: Lookup, m: Mail, valid: bool, part: string, file: string)
    requires forall k :: Asked(k, true) ==> Implies(get, k, m, valid, part, file)
    ensures CutKeeps(get, m, valid, part, file)
  {
    forall name | FromBytes(m, valid, name) && get(part, name).Some?
      ensures get(file, name).Some? && Found(get(file, name).value, get(part, name).value)
    {
      var v := get(part, name).value;
      FoundInSelf(v);
      HeaderKey(get, m, valid, name, v, part);
      HeaderKey(get, m, valid, name, v, file);
      hide Match, Asked, Found;
      assert Implies(get, And(Header(name, v), Text("")), m, valid, part, file);
    }
    var b := part[HeaderEnd(part)..];
    FoundInSelf(b);
    ModeIsEnough(Body(b));
    assert Asked(Body(b), true) && Implies(get, Body(b), m, valid, part, file);
  }

  /** A program for which files are read and that asks for one header value. */
  lemma HeaderKey(get: Lookup, m: Mail, valid: bool, name: string, v: string, file: string)
    ensures var k := And(Header(name, v), Text(""));
            Asked(k, true) && (FromBytes(m, valid, name) ==>
              (Match(get, k, Doc(m, valid, Some(file))) <==> get(file, name).Some? && Found(get(file, name).value, v)))
  {
    ModeIsEnough(And(Header(name, v), Text("")));
    assert Kmp.MatchAt(file, "", 0);
  }

  /** And it only gains matches, whatever program all of whose content keys are
      negated is asked, under the same condition. */
  lemma CutOnlyGainsIff(get: Lookup, m: Mail, valid: bool, file: string, n: nat)
    requires n <= |file|
    ensures (forall k :: Asked(k, false) ==> Implies(get, k, m, valid, file, file[..n]))
       <==> CutKeeps(get, m, valid, file[..n], file)
  {
    var part := file[..n];
    CutOnlyLosesIff(get, m, valid, file, n);
    hide CutKeeps;
    if forall k :: Asked(k, true) ==> Implies(get, k, m, valid, part, file) {
      forall k | Asked(k, false) ensures Implies(get, k, m, valid, file, part) {
        assert Asked(Not(k), true) && Implies(get, Not(k), m, valid, part, file);
      }
    }
    if forall k :: Asked(k, false) ==> Implies(get, k, m, valid, file, part) {
      forall k | Asked(k, true) ensures Implies(get, k, m, valid, part, file) {
        assert Asked(Not(k), false) && Implies(get, Not(k), m, valid, file, part);
      }
    }
  }

  /** No program at all tells the first bytes from the file if and only if they are
      the whole file. */
  lemma CutIsInvisibleIff(get: Lookup, m: Mail, valid: bool, file: string, n: nat)
    requires n <= |file|
    ensures (forall k :: ModeOf(k) == WholeFile ==>
               Implies(get, k, m, valid, file, file[..n]) && Implies(get, k, m, valid, file[..n], file))
       <==> n == |file|
  {
    var part := file[..n];
    if n == |file| { assert part == file; }
    if Implies(get, Text(file), m, valid, file, part) {
      FoundInSelf(file);
      assert Match(get, Text(file), Doc(m, valid, Some(file)));
      var p :| Kmp.MatchAt(part, file, p);
    }
  }

  /** A search of a file's first bytes matches no message that the whole file does
      not match, where the program negates no content key. */
  lemma CutOnlyLoses(get: Lookup, k: Key, m: Mail, valid: bool, file: string, n: nat)
    requires n <= |file| && Signed(k, true) && CutKeeps(get, m, valid, file[..n], file)
    requires Match(get, k, Doc(m, valid, Some(file[..n])))
    ensures Match(get, k, Doc(m, valid, Some(file)))
  {
    hide CutKeeps, Signed, Match;
    FoundInWhole(file, n);
    CutMonotone(get, k, m, valid, file[..n], file, true);
  }

  /** And a program all of whose content keys are negated loses none. */
  lemma CutOnlyGains(get: Lookup, k: Key, m: Mail, valid: bool, file: string, n: nat)
    requires n <= |file| && Signed(k, false) && CutKeeps(get, m, valid, file[..n], file)
    requires Match(get, k, Doc(m, valid, Some(file)))
    ensures Match(get, k, Doc(m, valid, Some(file[..n])))
  {
    hide CutKeeps, Signed, Match;
    FoundInWhole(file, n);
    CutMonotone(get, k, m, valid, file[..n], file, false);
  }

  /** The header of the first bytes ends before that of the file. */
  predicate EndsEarly(file: string, n: nat)
    requires n <= |file|
  {
    HeaderEnd(file[..n]) < HeaderEnd(file) && HeaderEnd(file[..n]) < n
  }

  /** In particular a cut that leaves the header end in place keeps the body, and
      header values that are cut short are kept. */
  lemma PlainCutKeeps(get: Lookup, m: Mail, valid: bool, file: string, n: nat)
    requires n <= |file| && !EndsEarly(file, n)
    requires forall name :: FromBytes(m, valid, name) && get(file[..n], name).Some? ==>
               get(file, name).Some? && get(file[..n], name).value <= get(file, name).value
    ensures CutKeeps(get, m, valid, file[..n], file)
  {
    hide HeaderEnd;
    forall name | FromBytes(m, valid, name) && get(file[..n], name).Some?
      ensures Found(get(file, name).value, get(file[..n], name).value)
    {
      var v, w := get(file[..n], name).value, get(file, name).value;
      assert w[..|v|] == v;
      FoundInWhole(w, |v|);
    }
    BodyInFile(file, n, HeaderEnd(file[..n]), HeaderEnd(file));
  }

  lemma BodyInFile(file: string, n: nat, d: nat, e: nat)
    requires d <= n <= |file| && e <= |file| && (d >= e || d == n)
    ensures Found(file[e..], file[..n][d..])
  {
    assert Kmp.MatchAt(file[e..], file[..n][d..], if d >= e then d - e else 0);
  }

  /** So what a search of whole files reports is true of the message. */
  lemma CutHitsAreTrue(get: Lookup, k: Key, es: seq<Entry>, i: nat, file: string, n: nat)
    requires i < |es| && ModeOf(k) == WholeFile && es[i].whole == Some(file)
    requires n == (if |file| > CutAt(es, 0, i) then CutAt(es, 0, i) else |file|)
    requires Signed(k, true) && CutKeeps(get, es[i].m, es[i].valid, file[..n], file)
    requires var d := Doc(es[i].m, es[i].valid, Some(file));
             Honest(get, WholeFile, d, file) && NeedlesOk(get, k, d, file)
    requires Match(get, k, Handed(get, k, es, i))
    ensures Means(get, k, es[i].m, file)
  {
    var d := Doc(es[i].m, es[i].valid, Some(file));
    assert file[..|file|] == file;
    hide Match, Means, ModeOf, CutAt, Honest, NeedlesOk, CutKeeps;
    assert Handed(get, k, es, i) == Doc(es[i].m, es[i].valid, Some(file[..n]));
    CutOnlyLoses(get, k, es[i].m, es[i].valid, file, n);
    ChosenModeAgrees(get, k, d, file);
  }

  /** A negated search reports a message that its file, read whole, does not match:
      of the second file one byte is read. */
  lemma CutNegationGains(get: Lookup, es: seq<Entry>)
    requires |es| == 2 && es[1].whole == Some("az")
    requires es[0].whole.Some? && |es[0].whole.value| == BUDGET - 2 * MSGCOST - 1
    ensures var k := Not(Text("z"));
            && Match(get, k, Handed(get, k, es, 1))
            && !Match(get, k, Doc(es[1].m, es[1].valid, Some("az")))
  {
    assert CutAt(es, 0, 0) == BUDGET - MSGCOST && BudgetAt(es, 0, 1) == MSGCOST + 1;
    assert CutAt(es, 0, 1) == 1 && "az"[..1] == "a";
    var k := Not(Text("z"));
    assert ModeOf(k) == WholeFile;
    assert Handed(get, k, es, 1).msg == Some("a");
    assert Kmp.MatchAt("az", "z", 1);
    forall p ensures !Kmp.MatchAt("a", "z", p) {
      if p == 0 { assert Lower("a"[p + 0]) != Lower("z"[0]); }
    }
  }

  /** And so does a search of the body, where the cut moves the header end. */
  lemma CutBodyGains(get: Lookup, m: Mail, valid: bool)
    ensures var k, file := Body("z"), "\n\nz\r\n\r\n";
            && Match(get, k, Doc(m, valid, Some(file[..3])))
            && !Match(get, k, Doc(m, valid, Some(file)))
  {
    var file := "\n\nz\r\n\r\n";
    assert file[..3] == "\n\nz";
    assert CrLfEnd("\n\nz", 0) == 4 && LfEnd("\n\nz", 0) == 2;
    assert CrLfEnd(file, 3) == 7;
    assert file[0..4][0] == file[1..5][0] == '\n' && file[2..6][0] == 'z';
    assert CrLfEnd(file, 0) == CrLfEnd(file, 1) == CrLfEnd(file, 2) == CrLfEnd(file, 3);
    assert Kmp.MatchAt("z", "z", 0);
    assert file[7..] == "";
  }
}
