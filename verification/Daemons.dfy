/** Any number of daemons over one mailbox.  Each holds a snapshot that goes
    stale while the others work; only the save is atomic. */
module Daemons {
  import opened Common
  import opened Uidlist
  import opened UidlistMerge
  import opened Mailbox

  datatype World = World(file: Option<Table>, sessions: map<nat, Session>)

  datatype Step =
    | OpenStep(id: nat, files: seq<File>, now: u32)
    | RegisterStep(id: nat, base: string, mid: string, now: u32)
    | StoreStep(id: nat, uid: u32)
    | ExpungeStep(id: nat, uid: u32)
    | SaveStep(id: nat)
    | CloseStep(id: nat)

  /** A session is opened under an unused number and used while open; a base
      already in the table is not registered again; no save runs out of uids. */
  predicate Enabled(w: World, st: Step) {
    match st
    case OpenStep(id, _, _) => id !in w.sessions
    case RegisterStep(id, base, _, now) => id !in w.sessions && base !in Bases(Load(w.file, now).rows)
    case StoreStep(id, _) => id in w.sessions
    case ExpungeStep(id, _) => id in w.sessions
    case SaveStep(id) =>
      && id in w.sessions
      && var s := w.sessions[id]; HasRoom(s.uidvalidity, s.uidnext, s.rows, w.file, Tombs(s))
    case CloseStep(id) => id in w.sessions
  }

  function Apply(w: World, st: Step): World
    requires Enabled(w, st)
  {
    match st
    case OpenStep(id, files, now) => w.(sessions := w.sessions[id := Scan(w.file, files, now)])
    case RegisterStep(id, base, mid, now) =>
      w.(sessions := w.sessions[id := RegisterSnapshot(w.file, base, mid, now)])
    case StoreStep(id, uid) => w.(sessions := w.sessions[id := Store(w.sessions[id], uid)])
    case ExpungeStep(id, uid) => w.(sessions := w.sessions[id := Expunge(w.sessions[id], uid)])
    case SaveStep(id) => w.(file := Some(Save(w.sessions[id], w.file)))
    case CloseStep(id) => w.(sessions := w.sessions - {id})
  }

  ghost predicate IsRun(ws: seq<World>, steps: seq<Step>) {
    && |ws| == |steps| + 1
    && forall i :: 0 <= i < |steps| ==> Enabled(ws[i], steps[i]) && ws[i + 1] == Apply(ws[i], steps[i])
  }

  ghost predicate FileSound(w: World) {
    w.file.Some? ==> Sound(w.file.value)
  }

  /** `later` continues `earlier`: the file is still there, its counter and its generation did not go back. */
  ghost predicate Advances(earlier: Option<Table>, later: Option<Table>) {
    earlier.Some? ==>
      && later.Some?
      && later.value.uidnext >= earlier.value.uidnext
      && later.value.uidvalidity >= earlier.value.uidvalidity
  }

  lemma StepIsSafe(w: World, st: Step)
    requires Enabled(w, st) && FileSound(w)
    ensures FileSound(Apply(w, st)) && Advances(w.file, Apply(w, st).file)
  {
    if st.SaveStep? {
      var s := w.sessions[st.id];
      MergeIsSound(s.uidvalidity, s.uidnext, s.rows, w.file, Tombs(s));
    }
  }

  /** In every run the published table is sound at every point, and neither its
      uidnext nor its uidvalidity ever decreases. */
  lemma {:induction false} RunIsSafe(ws: seq<World>, steps: seq<Step>, i: nat, j: nat)
    requires IsRun(ws, steps) && FileSound(ws[0])
    requires i <= j < |ws|
    ensures FileSound(ws[i]) && FileSound(ws[j]) && Advances(ws[i].file, ws[j].file)
    decreases j
  {
    if i < j {
      RunIsSafe(ws, steps, i, j - 1);
      StepIsSafe(ws[j - 1], steps[j - 1]);
    } else if 0 < i {
      RunIsSafe(ws, steps, i - 1, i - 1);
      StepIsSafe(ws[i - 1], steps[i - 1]);
    }
  }

  // ---------------------------------------------------------------------
  // Registrations survive
  // ---------------------------------------------------------------------

  /** The step cannot delete the row of `base`: it is no save, or a save by a
      session without a tombstone for it and of no newer generation. */
  predicate Spares(w: World, st: Step, base: string) {
    st.SaveStep? && st.id in w.sessions && w.file.Some? ==>
      var s := w.sessions[st.id];
      && base !in Tombs(s)
      && (w.file.value.uidvalidity == 0 || s.uidvalidity <= w.file.value.uidvalidity)
  }

  lemma SparedRowStays(w: World, st: Step, base: string)
    requires Enabled(w, st) && FileSound(w) && Spares(w, st, base)
    requires w.file.Some? && base in Bases(w.file.value.rows)
    ensures Apply(w, st).file.Some? && base in Bases(Apply(w, st).file.value.rows)
  {
    if st.SaveStep? {
      var s := w.sessions[st.id];
      var src := Sources(s.uidvalidity, s.rows, w.file);
      var sel := Select(src, Tombs(s));
      var d :| d in w.file.value.rows && d.base == base;
      assert d in src && Eligible(d, Tombs(s));
      assert base in EligibleBases(src, Tombs(s));
      SelectBases(src, Tombs(s));
      ResolveKeepsNames(sel, Lift(StartNext(s.uidnext, w.file), sel));
    }
  }

  /** A published registration stays published until a session that deleted it,
      or one of a newer generation, saves. */
  lemma {:induction false} RegistrationSurvives(ws: seq<World>, steps: seq<Step>, i: nat, j: nat, base: string)
    requires IsRun(ws, steps) && FileSound(ws[0])
    requires i <= j < |ws|
    requires ws[i].file.Some? && base in Bases(ws[i].file.value.rows)
    requires forall k :: i <= k < j ==> Spares(ws[k], steps[k], base)
    ensures ws[j].file.Some? && base in Bases(ws[j].file.value.rows)
    decreases j
  {
    if i < j {
      RegistrationSurvives(ws, steps, i, j - 1, base);
      RunIsSafe(ws, steps, 0, j - 1);
      SparedRowStays(ws[j - 1], steps[j - 1], base);
    }
  }

  // ---------------------------------------------------------------------
  // Uids stay
  // ---------------------------------------------------------------------

  /** A save of the current generation overrides disk rows only with their own uids. */
  ghost predicate Agrees(w: World, st: Step) {
    st.SaveStep? && st.id in w.sessions && w.file.Some? ==>
      var s := w.sessions[st.id];
      SameGeneration(s.uidvalidity, w.file.value) ==> OverridesAgree(s.rows, w.file.value, Tombs(s))
  }

  lemma SparedUidStays(w: World, st: Step, base: string)
    requires Enabled(w, st) && FileSound(w) && Spares(w, st, base) && Agrees(w, st)
    requires w.file.Some? && base in Bases(w.file.value.rows)
    ensures Apply(w, st).file.Some?
    ensures UidOf(Apply(w, st).file.value.rows, base) == UidOf(w.file.value.rows, base)
  {
    if st.SaveStep? {
      var s := w.sessions[st.id];
      var d :| d in w.file.value.rows && d.base == base;
      UidOfMeaning(w.file.value.rows, base);
      if SameGeneration(s.uidvalidity, w.file.value) {
        DiskUidStable(s.uidvalidity, s.uidnext, s.rows, w.file.value, Tombs(s), d);
      } else {
        assert w.file.value.rows + [] == w.file.value.rows;
        var uv := w.file.value.uidvalidity;
        assert Sources(uv, [], w.file) == Sources(s.uidvalidity, s.rows, w.file);
        DiskUidStable(uv, s.uidnext, [], w.file.value, Tombs(s), d);
      }
    }
  }

  /** While a registration survives and every save agrees with the file on the
      uids it overrides, its uid is the same at every point of the run. */
  lemma {:induction false} UidStaysOverRun(ws: seq<World>, steps: seq<Step>, i: nat, j: nat, base: string)
    requires IsRun(ws, steps) && FileSound(ws[0])
    requires i <= j < |ws|
    requires ws[i].file.Some? && base in Bases(ws[i].file.value.rows)
    requires forall k :: i <= k < j ==> Spares(ws[k], steps[k], base) && Agrees(ws[k], steps[k])
    ensures ws[j].file.Some? && UidOf(ws[j].file.value.rows, base) == UidOf(ws[i].file.value.rows, base) != 0
    decreases j
  {
    hide Apply, Agrees, Spares, Enabled;
    RunIsSafe(ws, steps, i, j);
    if i < j {
      UidStaysOverRun(ws, steps, i, j - 1, base);
      RegistrationSurvives(ws, steps, i, j - 1, base);
      RunIsSafe(ws, steps, 0, j - 1);
      SparedUidStays(ws[j - 1], steps[j - 1], base);
    } else {
      UidOfMeaning(ws[i].file.value.rows, base);
    }
  }

  // ---------------------------------------------------------------------
  // Reported uids
  // ---------------------------------------------------------------------

  /** The uid reported for a probed base is the one the published table holds;
      it is 0 exactly when the table has no row for the base. */
  lemma ReportIsPublished(w: World, id: nat, base: string)
    requires Enabled(w, SaveStep(id)) && FileSound(w)
    ensures var rows := Apply(w, SaveStep(id)).file.value.rows;
            && (UidOf(rows, base) == 0 <==> base !in Bases(rows))
            && (forall r :: r in rows && r.base == base ==> r.uid == UidOf(rows, base))
  {
    StepIsSafe(w, SaveStep(id));
    UidOfMeaning(Apply(w, SaveStep(id)).file.value.rows, base);
  }

  /** The save of a session takes part: the file is not of a newer generation. */
  predicate Current(s: Session, file: Option<Table>) {
    file.None? || s.uidvalidity == 0 || file.value.uidvalidity <= s.uidvalidity
  }

  /** A saved registration is published, so the reported uid is not 0, whatever
      other daemons saved in between, if and only if the file is not of a newer
      generation or has the base anyway. */
  lemma RegistrationIsPublished(w: World, id: nat, loaded: Option<Table>, base: string, mid: string, now: u32)
    requires id in w.sessions && w.sessions[id] == RegisterSnapshot(loaded, base, mid, now)
    requires Enabled(w, SaveStep(id)) && FileSound(w) && base != ""
    ensures UidOf(Apply(w, SaveStep(id)).file.value.rows, base) != 0
       <==> Current(w.sessions[id], w.file) || base in Bases(w.file.value.rows)
  {
    var s := w.sessions[id];
    var src := Sources(s.uidvalidity, s.rows, w.file);
    var sel := Select(src, {});
    assert Tombs(s) == {};
    SelectBases(src, {});
    ResolveKeepsNames(sel, Lift(StartNext(s.uidnext, w.file), sel));
    assert Bases(Apply(w, SaveStep(id)).file.value.rows) == EligibleBases(src, {});
    ReportIsPublished(w, id, base);
    hide Select, Resolve, Merge, UidOf;
    if Current(s, w.file) {
      var r := s.rows[|s.rows| - 1];
      assert r in src && Eligible(r, {});
      assert base in EligibleBases(src, {});
    } else {
      FileIsSource(s, w.file.value, base);
    }
  }

  lemma FileIsSource(s: Session, disk: Table, base: string)
    requires Sound(disk) && 0 < s.uidvalidity < disk.uidvalidity
    ensures base in EligibleBases(Sources(s.uidvalidity, s.rows, Some(disk)), {}) <==> base in Bases(disk.rows)
  {
    assert Sources(s.uidvalidity, s.rows, Some(disk)) == disk.rows;
    assert AllNamed(disk.rows) by {
      assert forall r :: r in disk.rows ==> r.base in Bases(disk.rows);
    }
    NamedAreEligible(disk.rows, {});
  }

  /** What a registration publishes, where the file does not have the base: a row
      with its Message-ID, under the next uid of the table it was loaded from,
      unless a row of the file has that by now, and then under a later one. */
  lemma RegisteredRow(loaded: Option<Table>, disk: Table, base: string, mid: string, now: u32)
    requires Sound(disk) && SameGeneration(RegisterSnapshot(loaded, base, mid, now).uidvalidity, disk)
    requires base != "" && base !in Bases(disk.rows) && base !in Bases(Load(loaded, now).rows)
    requires loaded.Some? ==> Sound(loaded.value)
    requires Load(loaded, now).uidnext < UINT32_MAX
    requires var s := RegisterSnapshot(loaded, base, mid, now);
             HasRoom(s.uidvalidity, s.uidnext, s.rows, Some(disk), {}) && OverridesAgree(s.rows, disk, {})
    ensures var un, out := Load(loaded, now).uidnext, Save(RegisterSnapshot(loaded, base, mid, now), Some(disk)).rows;
            && base in Bases(out)
            && (forall q :: q in out && q.base == base ==> q.mid == mid && q.uid >= un)
            && (Row(base, un, un + 1, mid) in out <==> un !in Uids(disk.rows))
  {
    hide *;
    RegisteredSession(loaded, base, mid, now);
    NewestRow(RegisterSnapshot(loaded, base, mid, now),
              Row(base, Load(loaded, now).uidnext, Load(loaded, now).uidnext + 1, mid), disk);
  }

  /** The snapshot of a registration: its row is the newest. */
  lemma RegisteredSession(loaded: Option<Table>, base: string, mid: string, now: u32)
    requires loaded.Some? ==> Sound(loaded.value)
    requires base != "" && base !in Bases(Load(loaded, now).rows) && Load(loaded, now).uidnext < UINT32_MAX
    ensures var s, un := RegisterSnapshot(loaded, base, mid, now), Load(loaded, now).uidnext;
            var r := Row(base, un, un + 1, mid);
            && Tombs(s) == {} && r in s.rows && Eligible(r, {}) && s.uidnext > un
            && DistinctBases(s.rows) && DistinctUids(s.rows)
  {
    var s, un := RegisterSnapshot(loaded, base, mid, now), Load(loaded, now).uidnext;
    assert s.rows == Load(loaded, now).rows + [Row(base, un, un + 1, mid)];
    RegisteredIsDistinct(Load(loaded, now).rows, Row(base, un, un + 1, mid));
    hide DistinctBases, DistinctUids, Bases;
  }

  lemma NewestRow(s: Session, r: Row, disk: Table)
    requires Sound(disk) && SameGeneration(s.uidvalidity, disk) && Tombs(s) == {}
    requires r in s.rows && Eligible(r, {}) && s.uidnext > r.uid && r.base !in Bases(disk.rows)
    requires DistinctBases(s.rows) && DistinctUids(s.rows)
    requires HasRoom(s.uidvalidity, s.uidnext, s.rows, Some(disk), {}) && OverridesAgree(s.rows, disk, {})
    ensures var out := Save(s, Some(disk)).rows;
            && r.base in Bases(out)
            && (forall q :: q in out && q.base == r.base ==> q.mid == r.mid && q.uid >= r.uid)
            && (r in out <==> r.uid !in Uids(disk.rows))
  {
    hide Merge, HasRoom, OverridesAgree, Sound, DistinctBases, DistinctUids, TakenOnDisk, Bases, Uids;
    NewRowIsPublished(s.uidvalidity, s.uidnext, s.rows, disk, {}, r);
    TakenUnlessDeleted(disk, r.uid);
  }

  lemma TakenUnlessDeleted(disk: Table, uid: u32)
    ensures TakenOnDisk(disk, {}, uid) <==> uid in Uids(disk.rows)
  {
  }

  lemma RegisteredIsDistinct(rows: seq<Row>, r: Row)
    requires DistinctBases(rows) && DistinctUids(rows) && UidsBelow(rows, r.uid) && r.base !in Bases(rows)
    ensures DistinctBases(rows + [r]) && DistinctUids(rows + [r])
  {
    assert forall i :: 0 <= i < |rows| ==> rows[i] in rows;
  }

  // ---------------------------------------------------------------------
  // A scan followed by its own save
  // ---------------------------------------------------------------------

  /** Whatever rows the table has gathered, a scan and its save leave exactly the
      files of the listing, the known ones under their uids: a row without a file
      is gone, a file without a row has one. The exception is a new file listed
      more than once: it has no row. */
  lemma ScanHealsTable(w: World, id: nat, files: seq<File>, now: u32)
    requires FileSound(w) && w.file.Some? && id !in w.sessions
    requires "" !in Names(files)
    requires Load(w.file, now).uidnext + |files| <= UINT32_MAX
    requires Enabled(Apply(w, OpenStep(id, files, now)), SaveStep(id))
    ensures var was, rows := w.file.value.rows, Apply(Apply(w, OpenStep(id, files, now)), SaveStep(id)).file.value.rows;
            && (forall b :: b in Bases(rows) <==> b in Names(files) && (b in Bases(was) || !ListedTwice(files, b)))
            && (forall d :: d in was && d.base in Names(files) ==> UidOf(rows, d.base) == d.uid)
  {
    var s := Scan(w.file, files, now);
    hide Scan, UidOf, Merge, Bases, Names, ListedTwice, Uidlist.Sound;
    HealedBases(w.file.value, files, now);
    HealedUids(w.file.value, files, now);
    assert Apply(Apply(w, OpenStep(id, files, now)), SaveStep(id)).file == Some(Save(s, w.file));
  }

  lemma HealedBases(disk: Table, files: seq<File>, now: u32)
    requires Sound(disk) && "" !in Names(files)
    requires Load(Some(disk), now).uidnext + |files| <= UINT32_MAX
    ensures forall b :: b in Bases(Save(Scan(Some(disk), files, now), Some(disk)).rows) <==>
                          b in Names(files) && (b in Bases(disk.rows) || !ListedTwice(files, b))
  {
    var s := Scan(Some(disk), files, now);
    ScanEstablishes(Some(disk), files, now);
    assert s.uidvalidity == disk.uidvalidity && Load(Some(disk), now).rows == disk.rows;
    hide Scan;
    assert forall r :: r in disk.rows + s.rows ==> r.base in Bases(disk.rows) + Names(files) && r.uid != 0;
    MergePublishesUnion(s.uidvalidity, s.uidnext, s.rows, disk, Tombs(s));
    hide Merge, ListedTwice, Bases, Names;
  }

  lemma HealedUids(disk: Table, files: seq<File>, now: u32)
    requires Sound(disk) && "" !in Names(files)
    requires Load(Some(disk), now).uidnext + |files| <= UINT32_MAX
    requires var s := Scan(Some(disk), files, now); HasRoom(s.uidvalidity, s.uidnext, s.rows, Some(disk), Tombs(s))
    ensures forall d :: d in disk.rows && d.base in Names(files) ==>
              UidOf(Save(Scan(Some(disk), files, now), Some(disk)).rows, d.base) == d.uid
  {
    var s := Scan(Some(disk), files, now);
    ScanEstablishes(Some(disk), files, now);
    assert s.uidvalidity == disk.uidvalidity && Load(Some(disk), now).rows == disk.rows;
    hide Scan, UidOf, Merge, ListedTwice;
    ScannedRowsAgree(disk, s.rows, files, Tombs(s));
    forall d | d in disk.rows && d.base in Names(files)
      ensures UidOf(Save(s, Some(disk)).rows, d.base) == d.uid
    {
      assert d.base in Bases(disk.rows) && d.base !in Tombs(s);
      DiskUidStable(s.uidvalidity, s.uidnext, s.rows, disk, Tombs(s), d);
    }
  }

  lemma ScannedRowsAgree(disk: Table, rows: seq<Row>, files: seq<File>, tomb: set<string>)
    requires DistinctBases(rows) && Bases(rows) == Names(files)
    requires forall r :: r in disk.rows && r.base in Names(files) ==> r in rows
    ensures OverridesAgree(rows, disk, tomb)
  {
    forall r, d | r in rows && d in disk.rows && r.base == d.base ensures r == d {
      assert r.base in Bases(rows);
    }
  }

  // ---------------------------------------------------------------------
  // Uids are not stable over every run
  // ---------------------------------------------------------------------

  lemma {:induction false} SelectKeepsClean(rows: seq<Row>, tomb: set<string>)
    requires DistinctBases(rows) && forall r :: r in rows ==> Eligible(r, tomb)
    ensures Select(rows, tomb) == rows
  {
    if rows != [] {
      var front, r := rows[..|rows| - 1], rows[|rows| - 1];
      assert rows == front + [r];
      SelectKeepsClean(front, tomb);
      assert Find(front, r.base) == |front|;
    }
  }

  lemma {:induction false} ResolveKeepsClean(rows: seq<Row>, un: u32)
    requires Clean(rows, un)
    ensures Lift(un, rows) == un && Resolve(rows, un) == (rows, un)
  {
    if rows != [] {
      var front, r := rows[..|rows| - 1], rows[|rows| - 1];
      assert rows == front + [r];
      ResolveKeepsClean(front, un);
      assert r.uid !in Uids(front);
    }
  }

  /** The first save of a clean snapshot publishes it as it is. */
  lemma FirstSavePublishesSnapshot(s: Session)
    requires Clean(s.rows, s.uidnext) && s.uidnext > 0 && "" !in Bases(s.rows) && Bases(s.rows) !! Tombs(s)
    ensures Save(s, None) == Table(s.uidvalidity, s.uidnext, s.rows)
  {
    assert forall r :: r in s.rows ==> r.base in Bases(s.rows);
    SelectKeepsClean(s.rows, Tombs(s));
    ResolveKeepsClean(s.rows, s.uidnext);
  }

  /** So does the save of a newer generation than the file's: nothing of the old
      generation stays but the counter. */
  lemma NewerSavePublishesSnapshot(s: Session, disk: Table)
    requires Clean(s.rows, s.uidnext) && s.uidnext > 0 && "" !in Bases(s.rows)
    requires 0 < disk.uidvalidity < s.uidvalidity && Bases(s.rows) !! Tombs(s)
    ensures Save(s, Some(disk))
         == Table(s.uidvalidity, if disk.uidnext > s.uidnext then disk.uidnext else s.uidnext, s.rows)
  {
    assert forall r :: r in s.rows ==> r.base in Bases(s.rows);
    SelectKeepsClean(s.rows, Tombs(s));
    ResolveKeepsClean(s.rows, StartNext(s.uidnext, Some(disk)));
  }

  /** And a save of an older generation changes nothing but the counter, and drops
      what the session has deleted. */
  lemma OlderSaveKeepsFile(s: Session, disk: Table)
    requires Sound(disk) && 0 < s.uidvalidity < disk.uidvalidity && Bases(disk.rows) !! Tombs(s)
    requires disk.uidnext > 0
    ensures Save(s, Some(disk)) == disk.(uidnext := if disk.uidnext > s.uidnext then disk.uidnext else s.uidnext)
  {
    assert forall r :: r in disk.rows ==> r.base in Bases(disk.rows);
    SelectKeepsClean(disk.rows, Tombs(s));
    ResolveKeepsClean(disk.rows, StartNext(s.uidnext, Some(disk)));
  }

  lemma {:induction false} PruneKeepsLive(rows: seq<Row>, i: nat, msgs: seq<Msg>, tomb: seq<string>)
    requires i <= |rows| && forall r :: r in rows ==> Live(r, msgs)
    ensures Prune(rows, i, msgs, tomb) == (rows, tomb)
    decreases |rows| - i
  {
    if i < |rows| {
      PruneKeepsLive(rows, i + 1, msgs, tomb);
    }
  }

  /** New files of a new mailbox are numbered in listing order. */
  lemma ScanNumbersInOrder(files: seq<File>, now: u32)
    requires |files| < UINT32_MAX && forall b :: !ListedTwice(files, b)
    ensures var s := Scan(None, files, now);
            && s.uidvalidity == now && s.uidnext == |files| + 1 && s.tomb == [] && |s.rows| == |files|
            && forall i :: 0 <= i < |files| ==> s.rows[i] == Row(files[i].base, i + 1, i + 2, files[i].mid)
  {
    AssignNumbers(files);
    var a := Assign([], files, 1);
    assert Clean([], 1);
    hide Assign, Clean;
    forall r | r in a.0 ensures Live(r, a.1) {
      var i :| 0 <= i < |a.0| && a.0[i] == r;
      assert files[i] in files;
      forall q | q in a.0 && q.base == r.base ensures q == r {
        var j :| 0 <= j < |a.0| && a.0[j] == q;
        assert !ListedTwice(files, r.base) && files[i].base == files[j].base == r.base;
      }
      LiveIffListed([], files, 1, r);
    }
    PruneKeepsLive(a.0, 0, a.1, []);
  }

  lemma {:induction false} AssignNumbers(files: seq<File>)
    requires |files| < UINT32_MAX
    ensures var a := Assign([], files, 1);
            && |a.0| == |files| && a.2 == |files| + 1
            && forall i :: 0 <= i < |files| ==> a.0[i] == Row(files[i].base, i + 1, i + 2, files[i].mid)
  {
    if files != [] {
      AssignNumbers(files[..|files| - 1]);
    }
  }

  /** The rows of a scan of two new files. */
  lemma ScanOfTwo(f: File, g: File, now: u32)
    requires f.base != g.base
    ensures var s := Scan(None, [f, g], now);
            && s.uidvalidity == now && s.uidnext == 3 && s.tomb == []
            && s.rows == [Row(f.base, 1, 2, f.mid), Row(g.base, 2, 3, g.mid)]
  {
    hide Scan;
    var files := [f, g];
    ScanNumbersInOrder(files, now);
    var s := Scan(None, files, now);
    assert s.rows == [s.rows[0], s.rows[1]];
  }

  /** Two daemons that list the same two new files in different orders: the
      second save changes a uid the first save published. */
  lemma StaleScansRenumber(f: File, g: File, now: u32) returns (ws: seq<World>, steps: seq<Step>)
    requires f.base != g.base && f.base != "" && g.base != "" && now > 0
    ensures steps == [OpenStep(0, [f, g], now), OpenStep(1, [g, f], now), SaveStep(0), SaveStep(1)]
    ensures IsRun(ws, steps) && ws[0] == World(None, map[])
    ensures ws[3].file.Some? && ws[4].file.Some?
    ensures UidOf(ws[3].file.value.rows, f.base) == 1
    ensures UidOf(ws[4].file.value.rows, f.base) != 1
  {
    var s0, s1 := Scan(None, [f, g], now), Scan(None, [g, f], now);
    ScanOfTwo(f, g, now);
    ScanOfTwo(g, f, now);
    SmallSave(s0, None);
    FirstSaveOfTwo(s0, f, g);
    SmallSave(s1, Some(Save(s0, None)));
    StaleSaveRenumbers(f, g, s0, s1);
    ws, steps := TwoSaves([f, g], [g, f], now, s0, s1);
  }

  /** The run of two daemons that both scan an empty table and then both save. */
  lemma TwoSaves(files: seq<File>, others: seq<File>, now: u32, s0: Session, s1: Session)
    returns (ws: seq<World>, steps: seq<Step>)
    requires s0 == Scan(None, files, now) && s1 == Scan(None, others, now)
    requires HasRoom(s0.uidvalidity, s0.uidnext, s0.rows, None, Tombs(s0))
    requires HasRoom(s1.uidvalidity, s1.uidnext, s1.rows, Some(Save(s0, None)), Tombs(s1))
    ensures steps == [OpenStep(0, files, now), OpenStep(1, others, now), SaveStep(0), SaveStep(1)]
    ensures IsRun(ws, steps) && ws[0] == World(None, map[])
    ensures ws[3].file == Some(Save(s0, None)) && ws[4].file == Some(Save(s1, ws[3].file))
  {
    hide Scan, Save, HasRoom;
    steps := [OpenStep(0, files, now), OpenStep(1, others, now), SaveStep(0), SaveStep(1)];
    var w0 := World(None, map[]);
    var w1 := Apply(w0, steps[0]);
    var w2 := Apply(w1, steps[1]);
    assert w2.sessions[0] == s0 && w2.sessions[1] == s1 && w2.file == None;
    var w3 := Apply(w2, steps[2]);
    var w4 := Apply(w3, steps[3]);
    ws := [w0, w1, w2, w3, w4];
  }

  lemma FirstSaveOfTwo(s: Session, f: File, g: File)
    requires f.base != g.base && f.base != "" && g.base != ""
    requires s.uidnext == 3 && s.tomb == []
    requires s.rows == [Row(f.base, 1, 2, f.mid), Row(g.base, 2, 3, g.mid)]
    ensures Save(s, None) == Table(s.uidvalidity, 3, s.rows)
  {
    assert Clean(s.rows, 3) && "" !in Bases(s.rows);
    FirstSavePublishesSnapshot(s);
  }

  lemma SmallSave(s: Session, disk: Option<Table>)
    requires s.uidnext == 3 && |s.rows| == 2 && forall r :: r in s.rows ==> r.uid < 3
    requires disk.Some? ==> disk.value.uidnext == 3 && |disk.value.rows| == 2
    requires disk.Some? ==> forall r :: r in disk.value.rows ==> r.uid < 3
    ensures HasRoom(s.uidvalidity, s.uidnext, s.rows, disk, Tombs(s))
  {
    var src := Sources(s.uidvalidity, s.rows, disk);
    SelectFromSource(src, Tombs(s));
    RoomForFewRows(3, Select(src, Tombs(s)), 3);
  }

  lemma StaleSaveRenumbers(f: File, g: File, s0: Session, s1: Session)
    requires f.base != g.base && f.base != "" && g.base != ""
    requires s0.uidvalidity == s1.uidvalidity && s0.uidnext == s1.uidnext == 3 && s0.tomb == s1.tomb == []
    requires s0.rows == [Row(f.base, 1, 2, f.mid), Row(g.base, 2, 3, g.mid)]
    requires s1.rows == [Row(g.base, 1, 2, g.mid), Row(f.base, 2, 3, f.mid)]
    requires HasRoom(s1.uidvalidity, 3, s1.rows, Some(Save(s0, None)), Tombs(s1))
    ensures UidOf(Save(s0, None).rows, f.base) == 1
    ensures UidOf(Save(s1, Some(Save(s0, None))).rows, f.base) != 1
  {
    hide Merge, HasRoom;
    FirstSaveOfTwo(s0, f, g);
    var disk := Table(s0.uidvalidity, 3, s0.rows);
    assert s0.rows[0] in s0.rows && s1.rows[1] in s1.rows;
    UidOfMeaning(disk.rows, f.base);
    DisagreeingOverrideChangesUid(s1.uidvalidity, 3, s1.rows, disk, Tombs(s1), s1.rows[1], s0.rows[0]);
  }

  // ---------------------------------------------------------------------
  // Deleted and changed messages
  // ---------------------------------------------------------------------

  /** Whatever the file holds, a save publishes no row the session has deleted. */
  lemma TombstonedIsUnpublished(s: Session, disk: Option<Table>, base: string)
    requires base in Tombs(s)
    ensures base !in Bases(Save(s, disk).rows)
  {
    var src := Sources(s.uidvalidity, s.rows, disk);
    var sel := Select(src, Tombs(s));
    SelectBases(src, Tombs(s));
    ResolveKeepsNames(sel, Lift(StartNext(s.uidnext, disk), sel));
    hide Select, Resolve, Lift;
    assert forall r :: r in src && Eligible(r, Tombs(s)) ==> r.base != base;
  }

  /** A session never forgets a deletion. */
  lemma TombsStay(s: Session, uid: u32)
    ensures Tombs(s) <= Tombs(Store(s, uid)) && Tombs(s) <= Tombs(Expunge(s, uid))
  {
  }

  /** No save of the session, whatever other daemons published before it, publishes
      the row of an expunged message. */
  lemma ExpungedIsGone(s: Session, uid: u32, disk: Option<Table>)
    requires FindMsg(s.msgs, uid) < |s.msgs| && FindUid(s.rows, uid) < |s.rows|
    ensures var base, t := s.rows[FindUid(s.rows, uid)].base, Expunge(s, uid);
            && Without(s.msgs, FindMsg(s.msgs, uid), t.msgs)
            && (base != "" ==> base in Tombs(t) && base !in Bases(Save(t, disk).rows))
  {
    hide Save;
    var base, t := s.rows[FindUid(s.rows, uid)].base, Expunge(s, uid);
    if base != "" {
      assert t.tomb[|t.tomb| - 1] == base;
      TombstonedIsUnpublished(t, disk, base);
    }
  }

  /** After a STORE the message's row carries a modseq above all the session has
      seen. Where the file has its row, a save publishes the one with the higher
      modseq, the file's if they are equal, under its uid. Where the file does not,
      the row is published: as it is, uids in memory being distinct, if and only if
      no undeleted row of the file has its uid, and under a new one otherwise. */
  lemma StoredModseqIsPublished(s: Session, uid: u32, disk: Table)
    requires FindMsg(s.msgs, uid) < |s.msgs| && FindUid(s.rows, uid) < |s.rows|
    requires var base := s.rows[FindUid(s.rows, uid)].base; base != "" && base !in Tombs(s)
    requires Sound(disk) && SameGeneration(s.uidvalidity, disk) && DistinctBases(s.rows) && uid != 0
    requires var t := Store(s, uid);
             HasRoom(t.uidvalidity, t.uidnext, t.rows, Some(disk), Tombs(t)) && OverridesAgree(t.rows, disk, Tombs(t))
    ensures var r, out := s.rows[FindUid(s.rows, uid)].(modseq := s.highest + 1), Save(Store(s, uid), Some(disk)).rows;
            && (forall d :: d in disk.rows && d.base == r.base ==> (if r.modseq > d.modseq then r else d) in out)
            && (r.base !in Bases(disk.rows) ==> PublishedAsNew(s, disk, r, out))
  {
    hide Merge, HasRoom, OverridesAgree, Selected, Sound, Bases, Save, DistinctBases, DistinctUids;
    var t, i := Store(s, uid), FindUid(s.rows, uid);
    var r := s.rows[i].(modseq := s.highest + 1);
    assert t.rows == s.rows[i := r] && t.uidvalidity == s.uidvalidity && t.uidnext == s.uidnext && Tombs(t) == Tombs(s);
    SameBasesDistinct(s.rows, i, r);
    hide Store, PublishedAsNew;
    forall d | d in disk.rows && d.base == r.base
      ensures (if r.modseq > d.modseq then r else d) in Save(t, Some(disk)).rows
    {
      StoredIsSelected(t, disk, d, i);
      SelectedIsPublished(t, disk, d, if r.modseq > d.modseq then r else d);
    }
    if r.base !in Bases(disk.rows) {
      StoredIsNew(s, t, disk, r);
    }
  }

  /** A row that only the session has, in the table it saves. */
  ghost predicate PublishedAsNew(s: Session, disk: Table, r: Row, out: seq<Row>) {
    && r.base in Bases(out)
    && (forall q :: q in out && q.base == r.base ==>
          q.mid == r.mid && (q == r || (q.uid >= s.uidnext && q.uid >= disk.uidnext)))
    && (DistinctUids(s.rows) ==> (r in out <==> !TakenOnDisk(disk, Tombs(s), r.uid)))
  }

  lemma StoredIsNew(s: Session, t: Session, disk: Table, r: Row)
    requires r in t.rows && Eligible(r, Tombs(t)) && r.base !in Bases(disk.rows)
    requires Tombs(t) == Tombs(s) && t.uidnext == s.uidnext && (DistinctUids(s.rows) ==> DistinctUids(t.rows))
    requires Sound(disk) && SameGeneration(t.uidvalidity, disk) && DistinctBases(t.rows)
    requires HasRoom(t.uidvalidity, t.uidnext, t.rows, Some(disk), Tombs(t)) && OverridesAgree(t.rows, disk, Tombs(t))
    ensures PublishedAsNew(s, disk, r, Save(t, Some(disk)).rows)
  {
    hide Merge, HasRoom, OverridesAgree, Sound, Bases, DistinctBases, DistinctUids, Tombs, TakenOnDisk;
    NewRowIsPublished(t.uidvalidity, t.uidnext, t.rows, disk, Tombs(t), r);
  }

  lemma SameBasesDistinct(rows: seq<Row>, i: nat, r: Row)
    requires i < |rows| && r.base == rows[i].base && DistinctBases(rows)
    ensures DistinctBases(rows[i := r])
    ensures r.uid == rows[i].uid && DistinctUids(rows) ==> DistinctUids(rows[i := r])
  {
  }

  /** The higher modseq of a row on both sides is selected. */
  lemma StoredIsSelected(t: Session, disk: Table, d: Row, i: nat)
    requires i < |t.rows| && DistinctBases(t.rows) && t.rows[i].base == d.base && t.rows[i].uid != 0
    requires d in disk.rows && d.base !in Tombs(t) && Sound(disk) && SameGeneration(t.uidvalidity, disk)
    ensures var r := t.rows[i];
            (if r.modseq > d.modseq then r else d) in Selected(t.uidvalidity, t.rows, Some(disk), Tombs(t))
  {
    hide Selected, Tombs;
    var k :| 0 <= k < |disk.rows| && disk.rows[k] == d;
    assert d.base in Bases(disk.rows);
    MergePicksHigherModseq(t.uidvalidity, t.rows, disk, Tombs(t), k, i);
  }

  /** Of the selected rows, those of a base in the file are published as they are. */
  lemma SelectedIsPublished(t: Session, disk: Table, d: Row, x: Row)
    requires Sound(disk) && SameGeneration(t.uidvalidity, disk) && d in disk.rows && x.base == d.base
    requires HasRoom(t.uidvalidity, t.uidnext, t.rows, Some(disk), Tombs(t)) && OverridesAgree(t.rows, disk, Tombs(t))
    requires x in Selected(t.uidvalidity, t.rows, Some(disk), Tombs(t))
    ensures x in Save(t, Some(disk)).rows
  {
    assert d.base in Bases(disk.rows);
    hide Merge, HasRoom, OverridesAgree, Selected, Sound, Tombs, SameGeneration;
    var sel := Selected(t.uidvalidity, t.rows, Some(disk), Tombs(t));
    var j :| 0 <= j < |sel| && sel[j] == x;
    MergeLength(t.uidvalidity, t.uidnext, t.rows, Some(disk), Tombs(t));
    OnlyNewRowsReminted(t.uidvalidity, t.uidnext, t.rows, disk, Tombs(t), j);
    assert Save(t, Some(disk)).rows[j] == x;
  }

  lemma MergeLength(uidvalidity: u32, uidnext: u32, v: seq<Row>, disk: Option<Table>, tomb: set<string>)
    ensures |Merge(uidvalidity, uidnext, v, disk, tomb).rows| == |Selected(uidvalidity, v, disk, tomb)|
  {
  }

  /** A new message whose name is listed twice in one scan, as when another daemon
      moves it from new/ to cur/ between the two listings, is tombstoned by that
      scan: no save of the session publishes it. */
  lemma ListedTwiceIsUnpublished(loaded: Option<Table>, files: seq<File>, now: u32, disk: Option<Table>, base: string)
    requires loaded.Some? ==> Sound(loaded.value)
    requires "" !in Names(files) && Load(loaded, now).uidnext + |files| <= UINT32_MAX
    requires ListedTwice(files, base) && base !in Bases(Load(loaded, now).rows)
    ensures base in Names(files) && base in Bases(Scan(loaded, files, now).rows)
    ensures base !in Bases(Save(Scan(loaded, files, now), disk).rows)
  {
    var i, j :| 0 <= i < j < |files| && files[i].base == files[j].base == base;
    assert files[i] in files;
    ScanEstablishes(loaded, files, now);
    hide Scan, Save, Load, ListedTwice, Bases;
    TombstonedIsUnpublished(Scan(loaded, files, now), disk, base);
  }
}
