/** SEARCH programs: evaluation on whatever content is at hand, the classifiers
    that choose that content, and what a program means on the whole message. */
module Search {
  import opened Common
  import Kmp

  // ---------------------------------------------------------------------
  // Programs
  // ---------------------------------------------------------------------

  /** The indexed header fields, in packing order. */
  datatype Field = From | To | Cc | Bcc | Subject | Date

  function FieldName(f: Field): string {
    match f
    case From => "From"
    case To => "To"
    case Cc => "Cc"
    case Bcc => "Bcc"
    case Subject => "Subject"
    case Date => "Date"
  }

  const MESSAGE_ID := "Message-ID"

  predicate SameName(a: string, b: string) {
    Fold(a) == Fold(b)
  }

  /** imapd_mail_hdr_fld. */
  function FieldOf(name: string): (r: Option<Field>)
    ensures r.Some? ==> SameName(name, FieldName(r.value))
  {
    if SameName(name, FieldName(From)) then Some(From)
    else if SameName(name, FieldName(To)) then Some(To)
    else if SameName(name, FieldName(Cc)) then Some(Cc)
    else if SameName(name, FieldName(Bcc)) then Some(Bcc)
    else if SameName(name, FieldName(Subject)) then Some(Subject)
    else if SameName(name, FieldName(Date)) then Some(Date)
    else None
  }

  /** What a message is without its content. */
  datatype Info = Info(number: nat, uid: nat, size: nat, modseq: nat, date: int,
                       flags: set<char>, recent: bool)

  /** A message as the view holds it, with its Message-ID in the index and the
      cached values of the indexed fields ("" for an absent one). */
  datatype Mail = Mail(info: Info, mid: Option<string>, cache: Field -> string)

  /** A search key. `Meta` stands for every test of flags, numbers, sizes, dates
      and mod-sequences, none of which looks at content; `Null` for a missing
      child; `Word` for FROM, TO, CC, BCC and SUBJECT. */
  datatype Key =
    | Null
    | Meta(test: Info -> bool)
    | Word(field: Field, text: string)
    | Header(name: string, text: string)
    | Body(text: string)
    | Text(text: string)
    | Not(a: Key)
    | Or(a: Key, b: Key)
    | And(a: Key, b: Key)

  /** Header lookup in a message or header block, as mail_header_get does it. */
  type Lookup = (string, string) -> Option<string>

  /** What the matcher is handed: whether the header cache counts, and the bytes
      read, if any. */
  datatype Doc = Doc(m: Mail, valid: bool, msg: Option<string>)

  ghost predicate Found(hay: string, needle: string) {
    exists p :: Kmp.MatchAt(hay, needle, p)
  }

  // ---------------------------------------------------------------------
  // Evaluation
  // ---------------------------------------------------------------------

  /** A header key: the Message-ID index first, then the cache, then the bytes. */
  ghost predicate MatchHeader(get: Lookup, d: Doc, name: string, byId: bool, text: string) {
    if byId && d.m.mid.Some? then Found(d.m.mid.value, text)
    else if d.valid && FieldOf(name).Some? then Found(d.m.cache(FieldOf(name).value), text)
    else d.msg.Some? && get(d.msg.value, name).Some? && Found(get(d.msg.value, name).value, text)
  }

  /** imapd_search_match. */
  ghost predicate Match(get: Lookup, k: Key, d: Doc) {
    match k
    case Null => false
    case Meta(t) => t(d.m.info)
    case Word(f, s) => MatchHeader(get, d, FieldName(f), false, s)
    case Header(n, s) => MatchHeader(get, d, n, SameName(n, MESSAGE_ID), s)
    case Body(s) => d.msg.Some? && Found(d.msg.value[HeaderEnd(d.msg.value)..], s)
    case Text(s) => d.msg.Some? && Found(d.msg.value, s)
    case Not(a) => !Match(get, a, d)
    case Or(a, b) => Match(get, a, d) || Match(get, b, d)
    case And(a, b) => Match(get, a, d) && Match(get, b, d)
  }

  /** What a program says of a message whose file holds `file`. */
  ghost predicate Means(get: Lookup, k: Key, m: Mail, file: string) {
    match k
    case Null => false
    case Meta(t) => t(m.info)
    case Word(f, s) => get(file, FieldName(f)).Some? && Found(get(file, FieldName(f)).value, s)
    case Header(n, s) => get(file, n).Some? && Found(get(file, n).value, s)
    case Body(s) => Found(file[HeaderEnd(file)..], s)
    case Text(s) => Found(file, s)
    case Not(a) => !Means(get, a, m, file)
    case Or(a, b) => Means(get, a, m, file) || Means(get, b, m, file)
    case And(a, b) => Means(get, a, m, file) && Means(get, b, m, file)
  }

  method EvaluateHeader(get: Lookup, d: Doc, name: string, byId: bool, text: string) returns (r: bool)
    ensures r == MatchHeader(get, d, name, byId, text)
  {
    var hay: string;
    if byId && d.m.mid.Some? {
      hay := d.m.mid.value;
    } else if d.valid && FieldOf(name).Some? {
      hay := d.m.cache(FieldOf(name).value);
    } else {
      if d.msg.None? { return false; }
      var v := get(d.msg.value, name);
      if v.None? { return false; }
      hay := v.value;
    }
    var p := Kmp.CiStrstr(hay, text);
    return p.Some?;
  }

  /** The matcher on its string search. */
  method Evaluate(get: Lookup, k: Key, d: Doc) returns (r: bool)
    ensures r == Match(get, k, d)
    decreases k
  {
    match k
    case Null => return false;
    case Meta(t) => return t(d.m.info);
    case Word(f, s) => r := EvaluateHeader(get, d, FieldName(f), false, s);
    case Header(n, s) => r := EvaluateHeader(get, d, n, SameName(n, MESSAGE_ID), s);
    case Body(s) =>
      if d.msg.None? { return false; }
      var p := Kmp.CiStrstr(d.msg.value[HeaderEnd(d.msg.value)..], s);
      return p.Some?;
    case Text(s) =>
      if d.msg.None? { return false; }
      var p := Kmp.CiStrstr(d.msg.value, s);
      return p.Some?;
    case Not(a) =>
      var x := Evaluate(get, a, d);
      return !x;
    case Or(a, b) =>
      r := Evaluate(get, a, d);
      if !r { r := Evaluate(get, b, d); }
    case And(a, b) =>
      r := Evaluate(get, a, d);
      if r { r := Evaluate(get, b, d); }
  }

  // ---------------------------------------------------------------------
  // Classifiers and the choice of content
  // ---------------------------------------------------------------------

  predicate NeedsBody(k: Key) {
    match k
    case Body(_) => true
    case Text(_) => true
    case Not(a) => NeedsBody(a)
    case Or(a, b) => NeedsBody(a) || NeedsBody(b)
    case And(a, b) => NeedsBody(a) || NeedsBody(b)
    case _ => false
  }

  predicate NeedsHeader(k: Key) {
    match k
    case Word(_, _) => true
    case Header(_, _) => true
    case Body(_) => true
    case Text(_) => true
    case Not(a) => NeedsHeader(a)
    case Or(a, b) => NeedsHeader(a) || NeedsHeader(b)
    case And(a, b) => NeedsHeader(a) || NeedsHeader(b)
    case _ => false
  }

  predicate Cacheable(k: Key) {
    match k
    case Header(n, _) => SameName(n, MESSAGE_ID) || SameName(n, FieldName(Date))
    case Body(_) => false
    case Text(_) => false
    case Not(a) => Cacheable(a)
    case Or(a, b) => Cacheable(a) && Cacheable(b)
    case And(a, b) => Cacheable(a) && Cacheable(b)
    case _ => true
  }

  predicate OnlyMessageId(k: Key) {
    match k
    case Header(n, _) => SameName(n, MESSAGE_ID)
    case Word(_, _) => false
    case Body(_) => false
    case Text(_) => false
    case Not(a) => OnlyMessageId(a)
    case Or(a, b) => OnlyMessageId(a) && OnlyMessageId(b)
    case And(a, b) => OnlyMessageId(a) && OnlyMessageId(b)
    case _ => true
  }

  /** What is loaded per message: the file, nothing but the header cache, the
      header block, or nothing. */
  datatype Mode = WholeFile | CacheOnly | HeaderBlock | Nothing

  function ModeOf(k: Key): Mode {
    var id := OnlyMessageId(k);
    var needs := NeedsBody(k) && !id;
    var needHeader := NeedsHeader(k) && !id;
    if needs then WholeFile
    else if Cacheable(k) then CacheOnly
    else if needHeader then HeaderBlock
    else Nothing
  }

  lemma {:induction false} ClassifiersAgree(k: Key)
    ensures NeedsBody(k) ==> !OnlyMessageId(k) && !Cacheable(k)
    ensures OnlyMessageId(k) ==> Cacheable(k)
    ensures !Cacheable(k) ==> NeedsHeader(k)
  {
    match k
    case Not(a) => ClassifiersAgree(a);
    case Or(a, b) => ClassifiersAgree(a); ClassifiersAgree(b);
    case And(a, b) => ClassifiersAgree(a); ClassifiersAgree(b);
    case _ =>
  }

  /** The choice never leaves a content key without its data: the file is read
      exactly for BODY and TEXT, and the header block whenever some key is not
      answered by the cache. */
  lemma ModeIsEnough(k: Key)
    ensures ModeOf(k) == WholeFile <==> NeedsBody(k)
    ensures ModeOf(k) == CacheOnly <==> Cacheable(k)
    ensures ModeOf(k) != Nothing
  {
    ClassifiersAgree(k);
  }

  // ---------------------------------------------------------------------
  // The chosen content answers like the whole message
  // ---------------------------------------------------------------------

  /** Every header key asks for at least one character. */
  predicate NonemptyNeedles(k: Key) {
    match k
    case Word(_, s) => s != ""
    case Header(_, s) => s != ""
    case Not(a) => NonemptyNeedles(a)
    case Or(a, b) => NonemptyNeedles(a) && NonemptyNeedles(b)
    case And(a, b) => NonemptyNeedles(a) && NonemptyNeedles(b)
    case _ => true
  }

  /** A stored value stands for what the file says: "" where it has no such field. */
  ghost predicate Stands(stored: string, value: Option<string>) {
    if value.Some? then stored == value.value else stored == ""
  }

  /** Lookup ignores the case of names. */
  ghost predicate FoldsNames(get: Lookup, file: string) {
    forall x, y :: SameName(x, y) ==> get(file, x) == get(file, y)
  }

  /** The Message-ID index holds the file's value, and nothing for a missing or
      empty one. */
  ghost predicate IndexHolds(get: Lookup, m: Mail, file: string) {
    if m.mid.Some? then get(file, MESSAGE_ID) == m.mid
    else get(file, MESSAGE_ID) == None || get(file, MESSAGE_ID) == Some("")
  }

  ghost predicate CacheHolds(get: Lookup, m: Mail, file: string) {
    forall f :: Stands(m.cache(f), get(file, FieldName(f)))
  }

  /** The document the chosen mode hands to the matcher is about this file. */
  ghost predicate Honest(get: Lookup, mode: Mode, d: Doc, file: string) {
    && FoldsNames(get, file)
    && IndexHolds(get, d.m, file)
    && (d.valid ==> CacheHolds(get, d.m, file))
    && match mode
       case WholeFile => d.msg == Some(file)
       case CacheOnly => d.valid && d.msg == None
       case HeaderBlock => d.msg.Some? && forall n :: get(d.msg.value, n) == get(file, n)
       case Nothing => d.msg == None
  }

  lemma NothingInEmpty(needle: string)
    requires needle != ""
    ensures !Found("", needle)
  {
  }

  /** One header key, from the cache: it agrees with the file exactly when the
      needle is nonempty or the file has the field. */
  lemma CachedKeyIff(get: Lookup, m: Mail, file: string, f: Field, text: string)
    requires CacheHolds(get, m, file)
    ensures Found(m.cache(f), text)
            == (get(file, FieldName(f)).Some? && Found(get(file, FieldName(f)).value, text))
       <==> text != "" || get(file, FieldName(f)).Some?
  {
    assert Stands(m.cache(f), get(file, FieldName(f)));
    if text == "" {
      assert Kmp.MatchAt(m.cache(f), text, 0);
    } else {
      NothingInEmpty(text);
    }
  }

  /** The exact condition for one header key: a nonempty needle, or an answer that
      does not come from a stored "" standing for a missing field. */
  predicate NeedleOk(get: Lookup, d: Doc, file: string, name: string, byId: bool, text: string) {
    || text != ""
    || (byId && d.m.mid.Some?)
    || (if d.valid && FieldOf(name).Some? then get(file, name).Some?
        else d.msg.Some? || get(file, name).None?)
  }

  /** One header key, in any mode that serves it, answers like the file exactly
      under that condition. */
  lemma HeaderAgrees(get: Lookup, mode: Mode, d: Doc, file: string, name: string, byId: bool, text: string)
    requires Honest(get, mode, d, file) && mode != Nothing
    requires byId ==> SameName(name, MESSAGE_ID)
    requires mode == CacheOnly ==> byId || FieldOf(name).Some?
    ensures MatchHeader(get, d, name, byId, text)
            == (get(file, name).Some? && Found(get(file, name).value, text))
       <==> NeedleOk(get, d, file, name, byId, text)
  {
    if text == "" {
      forall hay: string ensures Found(hay, text) {
        assert Kmp.MatchAt(hay, text, 0);
      }
    } else {
      NothingInEmpty(text);
    }
    if byId {
      assert get(file, name) == get(file, MESSAGE_ID);
    }
    var f := FieldOf(name);
    if d.valid && f.Some? {
      assert get(file, name) == get(file, FieldName(f.value));
      CachedKeyIff(get, d.m, file, f.value, text);
    }
  }

  lemma FieldOfName(f: Field)
    ensures FieldOf(FieldName(f)) == Some(f)
  {
    assert Fold("From")[0] == 'f' && Fold("To")[0] == 't' && Fold("Cc")[0] == 'c';
    assert Fold("Bcc")[0] == 'b' && Fold("Subject")[0] == 's' && Fold("Date")[0] == 'd';
  }

  /** Every header key of the program meets the exact condition of its own. */
  predicate NeedlesOk(get: Lookup, k: Key, d: Doc, file: string) {
    match k
    case Word(f, s) => NeedleOk(get, d, file, FieldName(f), false, s)
    case Header(n, s) => NeedleOk(get, d, file, n, SameName(n, MESSAGE_ID), s)
    case Not(a) => NeedlesOk(get, a, d, file)
    case Or(a, b) => NeedlesOk(get, a, d, file) && NeedlesOk(get, b, d, file)
    case And(a, b) => NeedlesOk(get, a, d, file) && NeedlesOk(get, b, d, file)
    case _ => true
  }

  lemma {:induction false} NonemptyIsOk(get: Lookup, k: Key, d: Doc, file: string)
    requires NonemptyNeedles(k)
    ensures NeedlesOk(get, k, d, file)
  {
    match k
    case Not(a) => NonemptyIsOk(get, a, d, file);
    case Or(a, b) => NonemptyIsOk(get, a, d, file); NonemptyIsOk(get, b, d, file);
    case And(a, b) => NonemptyIsOk(get, a, d, file); NonemptyIsOk(get, b, d, file);
    case _ =>
  }

  /** What a mode must serve for the whole program to be answered. */
  predicate Serves(mode: Mode, k: Key) {
    match mode
    case WholeFile => true
    case CacheOnly => Cacheable(k)
    case HeaderBlock => !NeedsBody(k)
    case Nothing => false
  }

  lemma {:induction false} AgreesWhenServed(get: Lookup, mode: Mode, k: Key, d: Doc, file: string)
    requires Honest(get, mode, d, file) && Serves(mode, k) && NeedlesOk(get, k, d, file)
    ensures Match(get, k, d) == Means(get, k, d.m, file)
  {
    match k
    case Word(f, s) =>
      FieldOfName(f);
      HeaderAgrees(get, mode, d, file, FieldName(f), false, s);
    case Header(n, s) =>
      if SameName(n, FieldName(Date)) {
        DateIsIndexed(n);
      }
      HeaderAgrees(get, mode, d, file, n, SameName(n, MESSAGE_ID), s);
    case Not(a) => AgreesWhenServed(get, mode, a, d, file);
    case Or(a, b) =>
      ClassifiersAgree(a);
      ClassifiersAgree(b);
      AgreesWhenServed(get, mode, a, d, file);
      AgreesWhenServed(get, mode, b, d, file);
    case And(a, b) =>
      AgreesWhenServed(get, mode, a, d, file);
      AgreesWhenServed(get, mode, b, d, file);
    case _ =>
  }

  lemma DateIsIndexed(n: string)
    requires SameName(n, FieldName(Date))
    ensures FieldOf(n).Some?
  {
  }

  /** For every program each of whose header keys has a nonempty needle or is not
      answered by a stored "" that stands for a missing field, evaluation on the
      content the classifiers choose is what it means on the whole message. */
  lemma ChosenModeAgrees(get: Lookup, k: Key, d: Doc, file: string)
    requires NeedlesOk(get, k, d, file) && Honest(get, ModeOf(k), d, file)
    ensures Match(get, k, d) == Means(get, k, d.m, file)
  {
    ModeIsEnough(k);
    ClassifiersAgree(k);
    AgreesWhenServed(get, ModeOf(k), k, d, file);
  }

  /** With an empty needle the cache and the file disagree: CC "" matches a message
      without a Cc field when it is answered from the cache. */
  lemma EmptyNeedleDiffers(get: Lookup, m: Mail, file: string)
    requires CacheHolds(get, m, file) && FoldsNames(get, file) && IndexHolds(get, m, file)
    requires get(file, FieldName(Cc)) == None
    ensures var k, d := Word(Cc, ""), Doc(m, true, None);
            && Honest(get, ModeOf(k), d, file)
            && Match(get, k, d) && !Means(get, k, m, file)
  {
    FieldOfName(Cc);
    CachedKeyIff(get, m, file, Cc, "");
    assert Kmp.MatchAt(m.cache(Cc), "", 0);
  }

  // ---------------------------------------------------------------------
  // Programs of several keys
  // ---------------------------------------------------------------------

  /** A further key joins a chain: the last key is wrapped, none is dropped. */
  function Join(chain: Key, k: Key, links: nat): Key {
    if links > 0 && chain.And? then And(chain.a, Join(chain.b, k, links - 1)) else And(chain, k)
  }

  /** imapd_search_parse_program: the first key alone, then a right-leaning chain.
      The tail of the chain is `links` conjunctions down. */
  function Program(keys: seq<Key>): Key
    requires keys != []
  {
    if |keys| == 1 then keys[0]
    else Join(Program(keys[..|keys| - 1]), keys[|keys| - 1], |keys| - 2)
  }

  lemma {:induction false} JoinMeans(get: Lookup, chain: Key, k: Key, links: nat, d: Doc)
    ensures Match(get, Join(chain, k, links), d) <==> Match(get, chain, d) && Match(get, k, d)
  {
    if links > 0 && chain.And? {
      JoinMeans(get, chain.b, k, links - 1, d);
    }
  }

  /** A program of several keys is their conjunction. */
  lemma {:induction false} ProgramIsConjunction(get: Lookup, keys: seq<Key>, d: Doc)
    requires keys != []
    ensures Match(get, Program(keys), d) <==> forall i :: 0 <= i < |keys| ==> Match(get, keys[i], d)
  {
    if |keys| > 1 {
      var front, last := keys[..|keys| - 1], keys[|keys| - 1];
      ProgramIsConjunction(get, front, d);
      JoinMeans(get, Program(front), last, |keys| - 2, d);
      assert forall i :: 0 <= i < |front| ==> front[i] == keys[i];
    }
  }

  /** A parenthesised group: its chain ends in a missing right child. */
  function Group(keys: seq<Key>): Key {
    if keys == [] then Null else And(keys[0], Group(keys[1..]))
  }

  /** So a group never matches, whatever its keys. */
  lemma {:induction false} GroupNeverMatches(get: Lookup, keys: seq<Key>, d: Doc)
    ensures !Match(get, Group(keys), d)
  {
    if keys != [] {
      GroupNeverMatches(get, keys[1..], d);
    }
  }

  // ---------------------------------------------------------------------
  // Short keys
  // ---------------------------------------------------------------------

  /** FROM, TO, CC, BCC and SUBJECT ask for the header of that name. */
  lemma WordsAreHeaders(get: Lookup, d: Doc, s: string)
    ensures Match(get, Word(From, s), d) == Match(get, Header("From", s), d)
    ensures Match(get, Word(To, s), d) == Match(get, Header("To", s), d)
    ensures Match(get, Word(Cc, s), d) == Match(get, Header("Cc", s), d)
    ensures Match(get, Word(Bcc, s), d) == Match(get, Header("Bcc", s), d)
    ensures Match(get, Word(Subject, s), d) == Match(get, Header("Subject", s), d)
  {
    forall f: Field ensures !SameName(FieldName(f), MESSAGE_ID) { FieldIsNoId(f); }
  }

  lemma FieldIsNoId(f: Field)
    ensures !SameName(FieldName(f), MESSAGE_ID)
  {
    assert Fold(MESSAGE_ID)[0] == 'm' && Fold("From")[0] == 'f' && Fold("To")[0] == 't' && Fold("Cc")[0] == 'c';
    assert Fold("Bcc")[0] == 'b' && Fold("Subject")[0] == 's' && Fold("Date")[0] == 'd';
  }

  /** The cache answers for From, To, Cc, Bcc, Subject and Date, in any case, and for
      no other header. */
  lemma CachedHeaders(name: string)
    ensures FieldOf(name).Some?
       <==> Fold(name) in ["from", "to", "cc", "bcc", "subject", "date"]
  {
    FoldedNames();
  }

  lemma FoldedNames()
    ensures Fold("From") == "from" && Fold("To") == "to" && Fold("Cc") == "cc" && Fold("Bcc") == "bcc"
    ensures Fold("Subject") == "subject" && Fold("Date") == "date"
  {
  }
}
