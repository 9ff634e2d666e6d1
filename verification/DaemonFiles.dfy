/** The published tables as text: what any run of daemons writes, a load reads back. */
module DaemonFiles {
  import opened Common
  import opened Uidlist
  import opened UidlistMerge
  import opened Mailbox
  import opened Daemons
  import UidlistFile

  /** A base of one word and a Message-ID of one line. */
  predicate OneLine(base: string, mid: string) {
    base != "" && ' ' !in base && '\n' !in base && '\n' !in mid
  }

  /** A row of such names, with a modseq of at most `b`. */
  predicate Plain(r: Row, b: nat) {
    OneLine(r.base, r.mid) && r.modseq <= b
  }

  ghost predicate PlainRows(rows: seq<Row>, b: nat) {
    forall r :: r in rows ==> Plain(r, b)
  }

  ghost predicate PlainMsgs(msgs: seq<Msg>, b: nat) {
    forall m :: m in msgs ==> OneLine(m.base, m.mid) && m.modseq <= b
  }

  ghost predicate PlainSession(s: Session, b: nat) {
    PlainRows(s.rows, b) && PlainMsgs(s.msgs, b) && s.highest <= b
  }

  ghost predicate PlainWorld(w: World, b: nat) {
    && (w.file.Some? ==> PlainRows(w.file.value.rows, b))
    && forall id :: id in w.sessions ==> PlainSession(w.sessions[id], b)
  }

  /** The names a step brings in are plain. */
  ghost predicate PlainStep(st: Step) {
    match st
    case OpenStep(_, files, _) => forall f :: f in files ==> OneLine(f.base, f.mid)
    case RegisterStep(_, base, mid, _) => OneLine(base, mid)
    case _ => true
  }

  lemma {:induction false} AssignPlain(known: seq<Row>, files: seq<File>, un: u32, b: nat)
    requires PlainRows(known, b) && b >= UINT32_MAX && forall f :: f in files ==> OneLine(f.base, f.mid)
    ensures PlainRows(Assign(known, files, un).0, b) && PlainMsgs(Assign(known, files, un).1, b)
  {
    if files != [] {
      var front, f := files[..|files| - 1], files[|files| - 1];
      AssignPlain(known, front, un, b);
      LookupMeaning(known, f.base);
      assert f in files;
      hide OneLine, Assign;
      AssignOnePlain(known, Assign(known, front, un), f, b);
    }
  }

  lemma AssignOnePlain(known: seq<Row>, p: (seq<Row>, seq<Msg>, u32), f: File, b: nat)
    requires PlainRows(known, b) && PlainRows(p.0, b) && PlainMsgs(p.1, b) && b >= UINT32_MAX && OneLine(f.base, f.mid)
    ensures PlainRows(AssignOne(known, p, f).0, b) && PlainMsgs(AssignOne(known, p, f).1, b)
  {
    LookupMeaning(known, f.base);
    hide OneLine;
    var k := Lookup(known, f.base);
    assert k.Some? ==> Plain(k.value, b);
  }

  lemma {:induction false} PruneFrom(rows: seq<Row>, i: nat, msgs: seq<Msg>, tomb: seq<string>)
    requires i <= |rows|
    ensures forall r :: r in Prune(rows, i, msgs, tomb).0 ==> r in rows
    decreases |rows| - i
  {
    if i < |rows| {
      if Live(rows[i], msgs) {
        PruneFrom(rows, i + 1, msgs, tomb);
      } else {
        SwapRemove(rows, i);
        PruneFrom(rows[i := rows[|rows| - 1]][..|rows| - 1], i, msgs, TombAdd(tomb, rows[i].base));
      }
    }
  }

  lemma {:induction false} HighestPlain(msgs: seq<Msg>, b: nat)
    requires PlainMsgs(msgs, b)
    ensures Highest(msgs) <= b
  {
    if msgs != [] {
      var front := msgs[..|msgs| - 1];
      assert msgs[|msgs| - 1] in msgs;
      HighestPlain(front, b);
    }
  }

  lemma ScanPlain(disk: Option<Table>, files: seq<File>, now: u32, b: nat)
    requires disk.Some? ==> PlainRows(disk.value.rows, b)
    requires b >= UINT32_MAX && forall f :: f in files ==> OneLine(f.base, f.mid)
    ensures PlainSession(Scan(disk, files, now), b)
  {
    hide Assign, Prune, Highest, OneLine;
    var t := Load(disk, now);
    var a := Assign(t.rows, files, t.uidnext);
    AssignPlain(t.rows, files, t.uidnext, b);
    PruneFrom(a.0, 0, a.1, []);
    HighestPlain(a.1, b);
  }

  lemma StorePlain(s: Session, uid: u32, b: nat)
    requires PlainSession(s, b)
    ensures PlainSession(Store(s, uid), b + 1)
  {
    hide OneLine;
    var m := FindMsg(s.msgs, uid);
    if m < |s.msgs| {
      var h, i := s.highest + 1, FindUid(s.rows, uid);
      var msg := s.msgs[m];
      assert msg in s.msgs;
      var msgs := s.msgs[m := msg.(modseq := h)];
      forall x | x in msgs ensures OneLine(x.base, x.mid) && x.modseq <= b + 1 {
        assert x == msg.(modseq := h) || x in s.msgs;
      }
      if i < |s.rows| {
        assert s.rows[i] in s.rows;
        var rows := s.rows[i := s.rows[i].(modseq := h)];
        forall r | r in rows ensures Plain(r, b + 1) {
          assert r == s.rows[i].(modseq := h) || r in s.rows;
        }
      }
    }
  }

  lemma ExpungePlain(s: Session, uid: u32, b: nat)
    requires PlainSession(s, b)
    ensures PlainSession(Expunge(s, uid), b)
  {
    hide Plain, OneLine;
    var i := FindUid(s.rows, uid);
    if i < |s.rows| { SwapRemove(s.rows, i); }
  }

  lemma {:induction false} ResolvePlain(rows: seq<Row>, un: u32, b: nat)
    requires PlainRows(rows, b) && b >= UINT32_MAX
    ensures PlainRows(Resolve(rows, un).0, b)
  {
    if rows != [] {
      var r := rows[|rows| - 1];
      assert Plain(r, b);
      ResolvePlain(rows[..|rows| - 1], un, b);
      hide OneLine;
    }
  }

  lemma SavePlain(s: Session, disk: Option<Table>, b: nat)
    requires PlainSession(s, b) && (disk.Some? ==> PlainRows(disk.value.rows, b)) && b >= UINT32_MAX
    ensures PlainRows(Save(s, disk).rows, b)
  {
    var src := Sources(s.uidvalidity, s.rows, disk);
    SelectFromSource(src, Tombs(s));
    var sel := Select(src, Tombs(s));
    hide Select, Resolve, Lift, Plain;
    assert forall r :: r in sel ==> r in src && Plain(r, b);
    ResolvePlain(sel, Lift(StartNext(s.uidnext, disk), sel), b);
  }

  lemma StepPlain(w: World, st: Step, b: nat)
    requires Enabled(w, st) && PlainWorld(w, b) && PlainStep(st) && b >= UINT32_MAX
    ensures PlainWorld(Apply(w, st), b + 1)
  {
    hide PlainRows, PlainMsgs, HasRoom, Scan, Store, Expunge, Save, RegisterSnapshot, PlainSession;
    SessionsWiden(w, b);
    match st
    case OpenStep(id, files, now) => ScanPlain(w.file, files, now, b); SessionWiden(Scan(w.file, files, now), b);
    case RegisterStep(id, base, mid, now) => RegisterPlain(w.file, base, mid, now, b);
    case StoreStep(id, uid) => StorePlain(w.sessions[id], uid, b);
    case ExpungeStep(id, uid) => ExpungePlain(w.sessions[id], uid, b); SessionWiden(Expunge(w.sessions[id], uid), b);
    case SaveStep(id) => SavePlain(w.sessions[id], w.file, b); RowsWiden(Save(w.sessions[id], w.file).rows, b);
    case CloseStep(id) =>
  }

  lemma SessionsWiden(w: World, b: nat)
    requires PlainWorld(w, b)
    ensures PlainWorld(w, b + 1)
  {
    forall id | id in w.sessions ensures PlainSession(w.sessions[id], b + 1) {
      SessionWiden(w.sessions[id], b);
    }
    if w.file.Some? { RowsWiden(w.file.value.rows, b); }
  }

  lemma SessionWiden(s: Session, b: nat)
    requires PlainSession(s, b)
    ensures PlainSession(s, b + 1)
  {
  }

  lemma RowsWiden(rows: seq<Row>, b: nat)
    requires PlainRows(rows, b)
    ensures PlainRows(rows, b + 1)
  {
  }

  lemma RegisterPlain(disk: Option<Table>, base: string, mid: string, now: u32, b: nat)
    requires disk.Some? ==> PlainRows(disk.value.rows, b)
    requires OneLine(base, mid) && b >= UINT32_MAX
    ensures PlainSession(RegisterSnapshot(disk, base, mid, now), b + 1)
  {
    hide OneLine;
  }

  lemma {:induction false} RunPlain(ws: seq<World>, steps: seq<Step>, b: nat, i: nat)
    requires IsRun(ws, steps) && PlainWorld(ws[0], b) && b >= UINT32_MAX && i < |ws|
    requires forall k :: 0 <= k < |steps| ==> PlainStep(steps[k])
    ensures PlainWorld(ws[i], b + i)
  {
    if i > 0 {
      hide PlainWorld, Enabled;
      RunPlain(ws, steps, b, i - 1);
      assert ws[i] == Apply(ws[i - 1], steps[i - 1]);
      StepPlain(ws[i - 1], steps[i - 1], b + (i - 1));
    }
  }

  /** In every run over one-word bases and one-line Message-IDs, short enough for
      64-bit modseqs, a load of the text of the published table gives that table
      at every point. */
  lemma PublishedTextLoads(ws: seq<World>, steps: seq<Step>, b: nat, i: nat, uv: u32, un: u32)
    requires IsRun(ws, steps) && FileSound(ws[0]) && PlainWorld(ws[0], b) && b >= UINT32_MAX && i < |ws|
    requires forall k :: 0 <= k < |steps| ==> PlainStep(steps[k])
    requires b + |steps| < UidlistFile.TWO64 && ws[i].file.Some?
    ensures UidlistFile.Load(UidlistFile.FileText(ws[i].file.value), uv, un) == ws[i].file.value
  {
    RunPlain(ws, steps, b, i);
    RunIsSafe(ws, steps, 0, i);
    var t := ws[i].file.value;
    forall r | r in t.rows ensures UidlistFile.Writable(r) {
      assert Plain(r, b + i) && r.uid > 0;
    }
    UidlistFile.LoadSaved(t, uv, un);
  }
}
