/** One daemon's view of a shared mailbox: opened by a directory scan over a
    loaded uidlist, changed by STORE and EXPUNGE, published by a locked save. */
module Mailbox {
  import opened Common
  import opened Uidlist

  /** A message file as the directory listing shows it. */
  datatype File = File(base: string, mid: string)

  /** A message of the opened view. */
  datatype Msg = Msg(uid: u32, base: string, modseq: nat, mid: string)

  /** What a session keeps between opening and closing a mailbox. */
  datatype Session = Session(uidvalidity: u32, uidnext: u32, rows: seq<Row>, tomb: seq<string>,
                             highest: nat, msgs: seq<Msg>)

  function Tombs(s: Session): set<string> {
    set b <- s.tomb
  }

  function Names(files: seq<File>): set<string> {
    set f <- files :: f.base
  }

  /** uidlist_load as the scan calls it: a missing table is a new generation. */
  function Load(disk: Option<Table>, now: u32): Table {
    if disk.None? then Table(now, 1, [])
    else disk.value.(uidnext := if disk.value.uidnext == 0 then 1 else disk.value.uidnext)
  }

  /** The row the base-name table built from `rows` leads to: the last one put. */
  function Lookup(rows: seq<Row>, base: string): Option<Row> {
    if rows == [] then None
    else if rows[|rows| - 1].base == base then Some(rows[|rows| - 1])
    else Lookup(rows[..|rows| - 1], base)
  }

  /** One scanned file: a known name keeps its row, any other is given the next
      uid, a modseq above it and a new row. */
  function AssignOne(known: seq<Row>, p: (seq<Row>, seq<Msg>, u32), f: File): (seq<Row>, seq<Msg>, u32) {
    var k := Lookup(known, f.base);
    if k.Some? && k.value.uid != 0 then
      (p.0, p.1 + [Msg(k.value.uid, f.base, k.value.modseq, k.value.mid)], p.2)
    else
      var nu := Add32(p.2, 1);
      (p.0 + [Row(f.base, p.2, nu, f.mid)], p.1 + [Msg(p.2, f.base, nu, f.mid)], nu)
  }

  /** The scan of the listed files: rows, view and counter. */
  function Assign(known: seq<Row>, files: seq<File>, un: u32): (seq<Row>, seq<Msg>, u32) {
    if files == [] then (known, [], un)
    else AssignOne(known, Assign(known, files[..|files| - 1], un), files[|files| - 1])
  }

  /** The largest uid the view has for a base, or 0. */
  function SeenUid(msgs: seq<Msg>, base: string): u32 {
    if msgs == [] then 0
    else
      var u := SeenUid(msgs[..|msgs| - 1], base);
      var m := msgs[|msgs| - 1];
      if m.base == base && m.uid >= u then m.uid else u
  }

  /** A row survives the prune when the view shows its file under its uid. */
  predicate Live(r: Row, msgs: seq<Msg>) {
    (exists m :: m in msgs && m.base == r.base) && SeenUid(msgs, r.base) == r.uid
  }

  /** The prune loop from position `i`: a dead row is overwritten by the last one
      and its base becomes a tombstone. */
  function Prune(rows: seq<Row>, i: nat, msgs: seq<Msg>, tomb: seq<string>): (seq<Row>, seq<string>)
    requires i <= |rows|
    decreases |rows| - i
  {
    if i == |rows| then (rows, tomb)
    else if Live(rows[i], msgs) then Prune(rows, i + 1, msgs, tomb)
    else Prune(rows[i := rows[|rows| - 1]][..|rows| - 1], i, msgs, TombAdd(tomb, rows[i].base))
  }

  /** tomb_add ignores the empty name. */
  function TombAdd(tomb: seq<string>, base: string): seq<string> {
    if base == "" then tomb else tomb + [base]
  }

  function Highest(msgs: seq<Msg>): nat {
    if msgs == [] then 0
    else
      var h := Highest(msgs[..|msgs| - 1]);
      if msgs[|msgs| - 1].modseq > h then msgs[|msgs| - 1].modseq else h
  }

  /** mbox_scan up to (not including) its save. */
  function Scan(disk: Option<Table>, files: seq<File>, now: u32): Session {
    var t := Load(disk, now);
    var a := Assign(t.rows, files, t.uidnext);
    var p := Prune(a.0, 0, a.1, []);
    Session(t.uidvalidity, a.2, p.0, p.1, Highest(a.1), a.1)
  }

  /** First position of a uid in the row list, or the length. */
  function FindUid(rows: seq<Row>, uid: u32): (i: nat)
    ensures i <= |rows|
    ensures i < |rows| ==> rows[i].uid == uid
    ensures forall j :: 0 <= j < i ==> rows[j].uid != uid
  {
    if rows == [] then 0
    else if rows[0].uid == uid then 0
    else 1 + FindUid(rows[1..], uid)
  }

  function FindMsg(msgs: seq<Msg>, uid: u32): (i: nat)
    ensures i <= |msgs|
    ensures i < |msgs| ==> msgs[i].uid == uid
    ensures forall j :: 0 <= j < i ==> msgs[j].uid != uid
  {
    if msgs == [] then 0
    else if msgs[0].uid == uid then 0
    else 1 + FindMsg(msgs[1..], uid)
  }

  /** imapd_mbox_store on the uid table: a new, strictly larger modseq. */
  function Store(s: Session, uid: u32): Session {
    var m := FindMsg(s.msgs, uid);
    if m == |s.msgs| then s
    else
      var h := s.highest + 1;
      var i := FindUid(s.rows, uid);
      s.(highest := h,
         msgs := s.msgs[m := s.msgs[m].(modseq := h)],
         rows := if i < |s.rows| then s.rows[i := s.rows[i].(modseq := h)]
                 else s.rows + [Row(s.msgs[m].base, uid, h, s.msgs[m].mid)])
  }

  /** imapd_mbox_expunge on the uid table: swap-remove the row, keep a tombstone. */
  function Expunge(s: Session, uid: u32): Session {
    var m := FindMsg(s.msgs, uid);
    if m == |s.msgs| then s
    else
      var i := FindUid(s.rows, uid);
      var t := s.(msgs := s.msgs[..m] + s.msgs[m + 1..]);
      if i == |s.rows| then t
      else t.(rows := s.rows[i := s.rows[|s.rows| - 1]][..|s.rows| - 1],
              tomb := TombAdd(s.tomb, s.rows[i].base))
  }

  /** mbox_register up to its save: the loaded table with one more row. */
  function RegisterSnapshot(disk: Option<Table>, base: string, mid: string, now: u32): Session {
    var t := Load(disk, now);
    var un := Add32(t.uidnext, 1);
    Session(t.uidvalidity, un,
            t.rows + [Row(base, t.uidnext, un, mid)], [], 0, [])
  }

  /** imapd_uidlist_save of a session, the lock held across read, merge and write. */
  function Save(s: Session, disk: Option<Table>): Table {
    Merge(s.uidvalidity, s.uidnext, s.rows, disk, Tombs(s))
  }

  // ---------------------------------------------------------------------
  // What a scan establishes
  // ---------------------------------------------------------------------

  /** A name is listed more than once: its file stands in new/ and in cur/, or was
      moved from one to the other between the two listings. */
  ghost predicate ListedTwice(files: seq<File>, base: string) {
    exists i, j :: 0 <= i < j < |files| && files[i].base == files[j].base == base
  }

  /** Lookup finds the row of a base exactly when there is one. */
  lemma {:induction false} LookupMeaning(rows: seq<Row>, base: string)
    ensures Lookup(rows, base).None? <==> base !in Bases(rows)
    ensures Lookup(rows, base).Some? ==> Lookup(rows, base).value in rows && Lookup(rows, base).value.base == base
  {
    if rows != [] {
      var front := rows[..|rows| - 1];
      LookupMeaning(front, base);
      BasesAppend(front, rows[|rows| - 1]);
      assert rows == front + [rows[|rows| - 1]];
    }
  }

  /** Distinct uids, all below the counter. */
  ghost predicate Numbered(rows: seq<Row>, un: int) {
    DistinctUids(rows) && UidsBelow(rows, un)
  }

  /** Distinct names too. */
  ghost predicate Clean(rows: seq<Row>, un: int) {
    DistinctBases(rows) && Numbered(rows, un)
  }

  lemma NumberedAppend(rows: seq<Row>, r: Row, un: nat)
    requires Numbered(rows, un) && 0 < r.uid == un
    ensures Numbered(rows + [r], un + 1)
  {
    assert forall i :: 0 <= i < |rows| ==> rows[i] in rows;
  }

  lemma AssignOneRow(known: seq<Row>, p: (seq<Row>, seq<Msg>, u32), f: File)
    requires UidsBelow(known, p.2) && Numbered(p.0, p.2) && 0 < p.2 < UINT32_MAX
    requires Bases(known) <= Bases(p.0)
    ensures var a := AssignOne(known, p, f);
            && (if f.base in Bases(known) then a.0 == p.0 && a.2 == p.2
                else |a.0| == |p.0| + 1 && p.0 <= a.0 && a.0[|p.0|].uid == p.2 && a.0[|p.0|].base == f.base
                     && a.2 == p.2 + 1)
            && Numbered(a.0, a.2)
            && Bases(a.0) == Bases(p.0) + {f.base}
  {
    LookupMeaning(known, f.base);
    assert Lookup(known, f.base).Some? ==> Lookup(known, f.base).value in known;
    if f.base !in Bases(known) {
      var r := Row(f.base, p.2, Add32(p.2, 1), f.mid);
      BasesAppend(p.0, r);
      NumberedAppend(p.0, r, p.2);
    } else {
      assert Bases(p.0) == Bases(p.0) + {f.base};
    }
  }

  lemma UidsWiden(rows: seq<Row>, un: int, wider: int)
    requires UidsBelow(rows, un) && un <= wider
    ensures UidsBelow(rows, wider)
  {
  }

  /** New listings get consecutive uids above the loaded counter, in listing order. */
  lemma {:induction false} AssignRows(known: seq<Row>, files: seq<File>, un: u32)
    requires Numbered(known, un)
    requires 0 < un && un + |files| <= UINT32_MAX
    ensures var a := Assign(known, files, un);
            && known <= a.0
            && un <= a.2 <= un + |files|
            && Numbered(a.0, a.2)
            && (forall i :: |known| <= i < |a.0| ==> a.0[i].uid >= un && a.0[i].base !in Bases(known))
            && Bases(a.0) == Bases(known) + Names(files)
  {
    assert UidsBelow(known, un);
    hide Numbered, UidsBelow, Bases, Names, AssignOne, ListedTwice;
    if files != [] {
      var n := |files| - 1;
      AssignRows(known, files[..n], un);
      var p := Assign(known, files[..n], un);
      NamesAppend(files);
      UidsWiden(known, un, p.2);
      AssignOneRow(known, p, files[n]);
    } else {
      NamesEmpty();
    }
  }

  lemma NamesEmpty()
    ensures Names([]) == {}
  {
  }

  lemma NamesAppend(files: seq<File>)
    requires files != []
    ensures var front, f := files[..|files| - 1], files[|files| - 1];
            && Names(files) == Names(front) + {f.base}
            && (forall b :: ListedTwice(files, b) <==> ListedTwice(front, b) || (f.base == b && b in Names(front)))
  {
    var front, f := files[..|files| - 1], files[|files| - 1];
    assert files == front + [f];
    forall b ensures ListedTwice(files, b) <==> ListedTwice(front, b) || (f.base == b && b in Names(front)) {
      TwiceAppend(front, f, b);
    }
  }

  lemma TwiceAppend(front: seq<File>, f: File, b: string)
    ensures ListedTwice(front + [f], b) <==> ListedTwice(front, b) || (f.base == b && b in Names(front))
  {
    var files, n := front + [f], |front|;
    if ListedTwice(files, b) {
      var i, j :| 0 <= i < j < |files| && files[i].base == files[j].base == b;
      assert files[i] == front[i] && (j < n ==> files[j] == front[j]);
    }
    if ListedTwice(front, b) {
      var i, j :| 0 <= i < j < |front| && front[i].base == front[j].base == b;
      assert files[i] == front[i] && files[j] == front[j];
    }
    if f.base == b && b in Names(front) {
      var g :| g in front && g.base == b;
      var i :| 0 <= i < n && front[i] == g;
      assert files[i].base == files[n].base == b;
    }
  }

  /** Some row is the message's. */
  ghost predicate Backed(m: Msg, rows: seq<Row>) {
    Row(m.base, m.uid, m.modseq, m.mid) in rows
  }

  /** The view has one message per listed file, under the uid of its row. */
  lemma {:induction false} AssignMsgs(known: seq<Row>, files: seq<File>, un: u32)
    requires forall r :: r in known ==> r.uid != 0
    ensures var a := Assign(known, files, un);
            && |a.1| == |files|
            && forall i :: 0 <= i < |files| ==> a.1[i].base == files[i].base && Backed(a.1[i], a.0)
    ensures known <= Assign(known, files, un).0
  {
    if files != [] {
      var n := |files| - 1;
      var front, f := files[..n], files[n];
      AssignMsgs(known, front, un);
      LookupMeaning(known, f.base);
      var p, a := Assign(known, front, un), Assign(known, files, un);
      var k := Lookup(known, f.base);
      if k.Some? {
        assert a.0 == p.0 && k.value in a.0;
      } else {
        assert a.0[|p.0|] in a.0;
        assert forall r :: r in p.0 ==> r in a.0;
      }
      assert Backed(a.1[n], a.0);
      assert forall i :: 0 <= i < n ==> a.1[i] == p.1[i];
    }
  }

  /** The seen uid of a name is the largest of its messages' uids. */
  lemma {:induction false} SeenUidMeaning(msgs: seq<Msg>, base: string)
    ensures forall m :: m in msgs && m.base == base ==> m.uid <= SeenUid(msgs, base)
    ensures (exists m :: m in msgs && m.base == base) ==>
              exists m :: m in msgs && m.base == base && m.uid == SeenUid(msgs, base)
    ensures (forall m :: m in msgs ==> m.base != base) ==> SeenUid(msgs, base) == 0
  {
    if msgs != [] {
      var front, m := msgs[..|msgs| - 1], msgs[|msgs| - 1];
      SeenUidMeaning(front, base);
      assert msgs == front + [m];
      assert m in msgs && forall x :: x in front ==> x in msgs;
    }
  }

  /** The prune keeps exactly the live rows and records the base of every other. */
  lemma {:induction false} PruneRows(rows: seq<Row>, i: nat, msgs: seq<Msg>, tomb: seq<string>)
    requires i <= |rows|
    requires forall r :: r in rows[..i] ==> Live(r, msgs)
    requires "" !in Bases(rows)
    ensures var p := Prune(rows, i, msgs, tomb);
            && (forall un :: Numbered(rows, un) ==> Numbered(p.0, un))
            && (forall r :: r in p.0 <==> r in rows && Live(r, msgs))
            && (forall b :: b in p.1 <==> b in tomb || exists r :: r in rows && r.base == b && !Live(r, msgs))
    decreases |rows| - i
  {
    if i < |rows| {
      assert rows[..i + 1] == rows[..i] + [rows[i]];
      if Live(rows[i], msgs) {
        PruneRows(rows, i + 1, msgs, tomb);
      } else {
        var shorter := rows[i := rows[|rows| - 1]][..|rows| - 1];
        SwapRemove(rows, i);
        assert shorter[..i] == rows[..i];
        assert forall r :: r in shorter ==> r in rows;
        assert rows[i] in rows && rows[i].base in Bases(rows);
        assert "" !in Bases(shorter);
        PruneRows(shorter, i, msgs, TombAdd(tomb, rows[i].base));
        assert forall r :: r in rows ==> r == rows[i] || r in shorter;
      }
    } else {
      assert rows[..i] == rows;
    }
  }

  /** Overwriting a row by the last one and shrinking drops exactly that row. */
  lemma SwapRemove(rows: seq<Row>, i: nat)
    requires i < |rows|
    ensures var shorter := rows[i := rows[|rows| - 1]][..|rows| - 1];
            && (forall r :: r in rows ==> r == rows[i] || r in shorter)
            && (forall r :: r in shorter ==> r in rows)
            && (forall un :: Numbered(rows, un) ==> Numbered(shorter, un))
  {
    var n := |rows| - 1;
    var shorter := rows[i := rows[n]][..n];
    assert forall j :: 0 <= j < n ==> shorter[j] == if j == i then rows[n] else rows[j];
    forall r | r in rows && r != rows[i] ensures r in shorter {
      var j :| 0 <= j < |rows| && rows[j] == r;
      assert if j < n then shorter[j] == r else shorter[i] == r;
    }
  }

  /** Every row of a listed name is some message's. */
  lemma {:induction false} AssignShows(known: seq<Row>, files: seq<File>, un: u32, r: Row)
    requires DistinctBases(known) && forall q :: q in known ==> q.uid != 0
    requires r in Assign(known, files, un).0 && r.base in Names(files)
    ensures exists m :: m in Assign(known, files, un).1 && m.base == r.base && m.uid == r.uid
  {
    var n := |files| - 1;
    var front, f := files[..n], files[n];
    var p, a := Assign(known, front, un), Assign(known, files, un);
    LookupMeaning(known, f.base);
    NamesAppend(files);
    hide ListedTwice, Names;
    assert forall m :: m in p.1 ==> m in a.1;
    assert a.1[|p.1|] in a.1;
    if r in p.0 && r.base in Names(front) {
      AssignShows(known, front, un, r);
    } else if f.base in Bases(known) {
      RowsOfKnown(known, front, un, r);
    } else if r in p.0 {
      RowsAreNamed(known, front, un, r);
    }
  }

  /** A row of a known name is the known row. */
  lemma {:induction false} RowsOfKnown(known: seq<Row>, files: seq<File>, un: u32, r: Row)
    requires forall q :: q in known ==> q.uid != 0
    requires r in Assign(known, files, un).0 && r.base in Bases(known)
    ensures r in known
  {
    if files != [] {
      LookupMeaning(known, files[|files| - 1].base);
      RowsOfKnown(known, files[..|files| - 1], un, r);
    }
  }

  /** Every row is known or listed. */
  lemma {:induction false} RowsAreNamed(known: seq<Row>, files: seq<File>, un: u32, r: Row)
    requires r in Assign(known, files, un).0
    ensures r in known || r.base in Names(files)
  {
    if files != [] {
      NamesAppend(files);
      hide ListedTwice, Names;
      var front := files[..|files| - 1];
      if r in Assign(known, front, un).0 {
        RowsAreNamed(known, front, un, r);
      }
    }
  }

  /** No other row of its name has a larger uid. */
  ghost predicate LastOfName(rows: seq<Row>, r: Row) {
    forall q :: q in rows && q.base == r.base ==> q.uid <= r.uid
  }

  /** After the assignment a row is live exactly when its file is listed and no
      other row of its name has a larger uid. */
  lemma LiveIffListed(known: seq<Row>, files: seq<File>, un: u32, r: Row)
    requires Clean(known, un)
    requires 0 < un && un + |files| <= UINT32_MAX
    requires r in Assign(known, files, un).0
    ensures Live(r, Assign(known, files, un).1)
       <==> r.base in Names(files) && LastOfName(Assign(known, files, un).0, r)
  {
    assert forall q :: q in known ==> q.uid != 0;
    hide Assign, Clean, SeenUid, LastOfName, Names, Live;
    if r.base in Names(files) {
      ListedIsLive(known, files, un, r);
    } else {
      UnlistedIsDead(known, files, un, r);
    }
  }

  lemma ListedIsLive(known: seq<Row>, files: seq<File>, un: u32, r: Row)
    requires Clean(known, un)
    requires r in Assign(known, files, un).0 && r.base in Names(files)
    ensures Live(r, Assign(known, files, un).1) <==> LastOfName(Assign(known, files, un).0, r)
  {
    assert forall q :: q in known ==> q.uid != 0;
    hide Assign, SeenUid, Names, Numbered;
    var a := Assign(known, files, un);
    SeenUidMeaning(a.1, r.base);
    forall q | q in a.0 && q.base == r.base ensures q.uid <= SeenUid(a.1, r.base) {
      AssignShows(known, files, un, q);
    }
    AssignShows(known, files, un, r);
    SeenIsRow(known, files, un, r.base);
  }

  /** The seen uid of a shown name is some row's. */
  lemma SeenIsRow(known: seq<Row>, files: seq<File>, un: u32, base: string)
    requires forall q :: q in known ==> q.uid != 0
    requires exists m :: m in Assign(known, files, un).1 && m.base == base
    ensures var a := Assign(known, files, un);
            exists q :: q in a.0 && q.base == base && q.uid == SeenUid(a.1, base)
  {
    hide Assign, SeenUid;
    var a := Assign(known, files, un);
    AssignMsgs(known, files, un);
    SeenUidMeaning(a.1, base);
    var m :| m in a.1 && m.base == base && m.uid == SeenUid(a.1, base);
    var i :| 0 <= i < |a.1| && a.1[i] == m;
    assert Backed(a.1[i], a.0);
  }

  lemma UnlistedIsDead(known: seq<Row>, files: seq<File>, un: u32, r: Row)
    requires forall q :: q in known ==> q.uid != 0
    requires r.base !in Names(files)
    ensures !Live(r, Assign(known, files, un).1)
  {
    hide Assign, SeenUid;
    AssignMsgs(known, files, un);
    var a := Assign(known, files, un);
    forall m | m in a.1 ensures m.base != r.base {
      var i :| 0 <= i < |a.1| && a.1[i] == m;
      assert files[i] in files;
    }
  }

  ghost predicate TwoRows(rows: seq<Row>, base: string) {
    exists i, j :: 0 <= i < j < |rows| && rows[i].base == rows[j].base == base
  }

  lemma TwoRowsAppend(rows: seq<Row>, r: Row, base: string)
    ensures TwoRows(rows + [r], base) <==> TwoRows(rows, base) || (r.base == base && base in Bases(rows))
  {
    var all := rows + [r];
    if TwoRows(all, base) {
      var i, j :| 0 <= i < j < |all| && all[i].base == all[j].base == base;
      assert all[i] == rows[i] && rows[i] in rows && (j < |rows| ==> all[j] == rows[j]);
    }
    if TwoRows(rows, base) {
      var i, j :| 0 <= i < j < |rows| && rows[i].base == rows[j].base == base;
      assert all[i] == rows[i] && all[j] == rows[j];
    }
    if r.base == base && base in Bases(rows) {
      var q :| q in rows && q.base == base;
      var i :| 0 <= i < |rows| && rows[i] == q;
      assert all[i].base == all[|rows|].base == base;
    }
  }

  /** A new name has several rows exactly when it is listed more than once. */
  lemma {:induction false} TwiceIffTwoRows(known: seq<Row>, files: seq<File>, un: u32, base: string)
    requires forall q :: q in known ==> q.uid != 0
    requires base !in Bases(known)
    ensures var rows := Assign(known, files, un).0;
            && (ListedTwice(files, base) <==> TwoRows(rows, base))
            && (base in Names(files) <==> base in Bases(rows))
  {
    if files == [] {
      assert forall i :: 0 <= i < |known| ==> known[i] in known;
    } else {
      var n := |files| - 1;
      var front, f := files[..n], files[n];
      var p := Assign(known, front, un);
      TwiceIffTwoRows(known, front, un, base);
      NamesAppend(files);
      LookupMeaning(known, f.base);
      hide ListedTwice, Names, Bases, TwoRows;
      if f.base !in Bases(known) {
        var r := Row(f.base, p.2, Add32(p.2, 1), f.mid);
        TwoRowsAppend(p.0, r, base);
        BasesAppend(p.0, r);
      }
    }
  }

  /** Positions of one name in rows with distinct uids. */
  lemma TwoRowsMeaning(rows: seq<Row>, base: string)
    requires DistinctUids(rows)
    ensures TwoRows(rows, base) <==> exists q, r :: q in rows && r in rows && q.base == r.base == base && q.uid < r.uid
  {
    if TwoRows(rows, base) {
      var i, j :| 0 <= i < j < |rows| && rows[i].base == rows[j].base == base;
      assert rows[i] in rows && rows[j] in rows && rows[i].uid != rows[j].uid;
    }
    if exists q, r :: q in rows && r in rows && q.base == r.base == base && q.uid < r.uid {
      var q, r :| q in rows && r in rows && q.base == r.base == base && q.uid < r.uid;
      var i :| 0 <= i < |rows| && rows[i] == q;
      var j :| 0 <= j < |rows| && rows[j] == r;
      assert if i < j then rows[i].base == rows[j].base == base else rows[j].base == rows[i].base == base;
    }
  }

  /** Some row of a present name is the last of it. */
  lemma {:induction false} LastExists(rows: seq<Row>, base: string) returns (r: Row)
    requires base in Bases(rows)
    ensures r in rows && r.base == base && LastOfName(rows, r)
  {
    var front, last := rows[..|rows| - 1], rows[|rows| - 1];
    assert rows == front + [last];
    if base in Bases(front) {
      r := LastExists(front, base);
      if last.base == base && last.uid > r.uid { r := last; }
    } else {
      r := last;
      assert forall q :: q in front ==> q.base in Bases(front);
    }
  }

  /** Of the rows that survive, one for each listed name. */
  lemma SurvivorsAreDistinct(all: seq<Row>, kept: seq<Row>, names: set<string>)
    requires DistinctUids(all) && DistinctUids(kept)
    requires forall r :: r in kept <==> r in all && r.base in names && LastOfName(all, r)
    requires names <= Bases(all)
    ensures DistinctBases(kept) && Bases(kept) == names
  {
    forall i, j | 0 <= i < j < |kept| ensures kept[i].base != kept[j].base {
      assert kept[i] in kept && kept[j] in kept;
    }
    forall b | b in names ensures b in Bases(kept) {
      var r := LastExists(all, b);
    }
  }

  /** A scan leaves exactly the listed names, each known one under its old uid and
      each new one under one uid never below the loaded counter. Its tombstones are
      the names that vanished and the new names listed more than once. */
  lemma ScanEstablishes(disk: Option<Table>, files: seq<File>, now: u32)
    requires disk.Some? ==> Sound(disk.value)
    requires "" !in Names(files)
    requires Load(disk, now).uidnext + |files| <= UINT32_MAX
    ensures var t, s := Load(disk, now), Scan(disk, files, now);
            && Clean(s.rows, s.uidnext) && s.uidnext >= t.uidnext
            && Bases(s.rows) == Names(files)
            && (forall b :: b in Tombs(s) <==>
                  if b in Bases(t.rows) then b !in Names(files) else ListedTwice(files, b))
            && (forall r :: r in t.rows && r.base in Names(files) ==> r in s.rows)
            && (forall r :: r in s.rows ==> r in t.rows || r.uid >= t.uidnext)
  {
    var t := Load(disk, now);
    assert Clean(t.rows, t.uidnext) && "" !in Bases(t.rows);
    hide Assign, Prune, Sound, Bases, Names, ListedTwice, Clean;
    ScanKeeps(t.rows, files, t.uidnext);
    ScanRecords(t.rows, files, t.uidnext);
  }

  lemma NumberedMeans(rows: seq<Row>, un: int)
    requires Numbered(rows, un)
    ensures DistinctUids(rows) && forall q :: q in rows ==> q.uid != 0
  {
  }

  lemma CleanMeans(rows: seq<Row>, un: int)
    requires Clean(rows, un)
    ensures DistinctBases(rows) && Numbered(rows, un) && forall q :: q in rows ==> q.uid != 0
  {
  }

  /** The rows a scan keeps. */
  lemma ScanKeeps(known: seq<Row>, files: seq<File>, un: u32)
    requires Clean(known, un) && "" !in Bases(known) && "" !in Names(files)
    requires 0 < un && un + |files| <= UINT32_MAX
    ensures var a := Assign(known, files, un);
            var kept := Prune(a.0, 0, a.1, []).0;
            && Clean(kept, a.2) && a.2 >= un && Bases(kept) == Names(files)
            && (forall r :: r in known && r.base in Names(files) ==> r in kept)
            && (forall r :: r in kept ==> r in known || r.uid >= un)
  {
    hide Live, Assign, Prune, Bases, Names, LastOfName, Numbered, DistinctUids, DistinctBases;
    var a := Assign(known, files, un);
    var kept := Prune(a.0, 0, a.1, []).0;
    CleanMeans(known, un);
    AssignRows(known, files, un);
    PruneRows(a.0, 0, a.1, []);
    NumberedMeans(a.0, a.2);
    NumberedMeans(kept, a.2);
    LiveRows(known, files, un);
    SurvivorsAreDistinct(a.0, kept, Names(files));
    forall r | r in known && r.base in Names(files) ensures r in kept {
      KnownIsLast(known, files, un, r);
    }
    assert forall r :: r in a.0 ==> r in known || r.uid >= un;
  }

  lemma LiveRows(known: seq<Row>, files: seq<File>, un: u32)
    requires Clean(known, un) && 0 < un && un + |files| <= UINT32_MAX
    ensures var a := Assign(known, files, un);
            forall r :: r in a.0 ==> (Live(r, a.1) <==> r.base in Names(files) && LastOfName(a.0, r))
  {
    hide Live, Assign, Names, LastOfName, Clean;
    var a := Assign(known, files, un);
    forall r | r in a.0 ensures Live(r, a.1) <==> r.base in Names(files) && LastOfName(a.0, r) {
      LiveIffListed(known, files, un, r);
    }
  }

  /** The names it records. */
  lemma ScanRecords(known: seq<Row>, files: seq<File>, un: u32)
    requires Clean(known, un) && "" !in Bases(known) && "" !in Names(files)
    requires 0 < un && un + |files| <= UINT32_MAX
    ensures var a := Assign(known, files, un);
            var tomb := Prune(a.0, 0, a.1, []).1;
            forall b :: b in tomb <==> if b in Bases(known) then b !in Names(files) else ListedTwice(files, b)
  {
    var a := Assign(known, files, un);
    var tomb := Prune(a.0, 0, a.1, []).1;
    AssignRows(known, files, un);
    hide Live, Assign, Prune, Bases, Names, LastOfName, Clean, ListedTwice;
    PruneRows(a.0, 0, a.1, []);
    LiveRows(known, files, un);
    forall b ensures b in tomb <==> if b in Bases(known) then b !in Names(files) else ListedTwice(files, b) {
      TombIff(known, files, un, tomb, b);
    }
  }

  /** The row of a known name is the only one. */
  lemma KnownIsLast(known: seq<Row>, files: seq<File>, un: u32, r: Row)
    requires DistinctBases(known) && (forall q :: q in known ==> q.uid != 0) && r in known
    ensures LastOfName(Assign(known, files, un).0, r)
  {
    forall q | q in Assign(known, files, un).0 && q.base == r.base ensures q == r {
      RowsOfKnown(known, files, un, q);
      var i :| 0 <= i < |known| && known[i] == r;
      var j :| 0 <= j < |known| && known[j] == q;
    }
  }

  /** Which names the prune records. */
  lemma TombIff(known: seq<Row>, files: seq<File>, un: u32, tomb: seq<string>, b: string)
    requires Clean(known, un) && 0 < un && un + |files| <= UINT32_MAX
    requires var rows := Assign(known, files, un).0;
             (b in tomb <==> exists r :: r in rows && r.base == b && !(r.base in Names(files) && LastOfName(rows, r)))
    ensures b in tomb <==> if b in Bases(known) then b !in Names(files) else ListedTwice(files, b)
  {
    var rows := Assign(known, files, un).0;
    AssignRows(known, files, un);
    if b in Bases(known) {
      var r :| r in known && r.base == b;
      assert r in rows;
      forall q | q in rows && q.base == b ensures LastOfName(rows, q) {
        RowsOfKnown(known, files, un, q);
        KnownIsLast(known, files, un, q);
      }
    } else {
      TwiceIffTwoRows(known, files, un, b);
      TwoRowsMeaning(rows, b);
      hide ListedTwice, TwoRows, Assign;
      assert b in Bases(rows) ==> b in Names(files);
      assert forall r :: r in rows && r.base == b ==> b in Bases(rows);
    }
  }

  // ---------------------------------------------------------------------
  // What STORE and EXPUNGE change
  // ---------------------------------------------------------------------

  /** The view names a message only once. */
  ghost predicate DistinctMsgs(msgs: seq<Msg>) {
    forall i, j :: 0 <= i < j < |msgs| ==> msgs[i].uid != msgs[j].uid
  }

  /** `after` is `before` without its element `k`, order kept. */
  ghost predicate Without<T(!new)>(before: seq<T>, k: nat, after: seq<T>) {
    && k < |before| == |after| + 1
    && (forall i :: 0 <= i < k ==> after[i] == before[i])
    && (forall i :: k <= i < |after| ==> after[i] == before[i + 1])
  }

  /** No message of that uid: nothing changes. */
  lemma UnknownUid(s: Session, uid: u32)
    requires forall m :: m in s.msgs ==> m.uid != uid
    ensures Store(s, uid) == s && Expunge(s, uid) == s
  {
    assert forall i :: 0 <= i < |s.msgs| ==> s.msgs[i] in s.msgs;
  }

  /** EXPUNGE takes the first message of that uid out of the view and leaves the
      others in order. With distinct uids, every other message stays and that uid is
      gone. Session header and modseq do not change. */
  lemma ExpungedView(s: Session, uid: u32)
    requires exists m :: m in s.msgs && m.uid == uid
    ensures var t, k := Expunge(s, uid), FindMsg(s.msgs, uid);
            && Without(s.msgs, k, t.msgs) && s.msgs[k].uid == uid && (forall i :: 0 <= i < k ==> s.msgs[i].uid != uid)
            && (DistinctMsgs(s.msgs) ==> forall m :: m in t.msgs <==> m in s.msgs && m.uid != uid)
            && t.uidvalidity == s.uidvalidity && t.uidnext == s.uidnext && t.highest == s.highest
  {
    var m0 :| m0 in s.msgs && m0.uid == uid;
    var i0 :| 0 <= i0 < |s.msgs| && s.msgs[i0] == m0;
    var t, k := Expunge(s, uid), FindMsg(s.msgs, uid);
    assert Without(s.msgs, k, t.msgs);
    if DistinctMsgs(s.msgs) {
      forall m ensures m in t.msgs <==> m in s.msgs && m.uid != uid {
        MemberWithout(s.msgs, k, t.msgs, m);
      }
    }
  }

  lemma MemberWithout(before: seq<Msg>, k: nat, after: seq<Msg>, m: Msg)
    requires Without(before, k, after) && DistinctMsgs(before)
    ensures m in after <==> m in before && m.uid != before[k].uid
  {
    if m in after {
      var i :| 0 <= i < |after| && after[i] == m;
      assert m == before[if i < k then i else i + 1];
    }
    if m in before && m.uid != before[k].uid {
      var i :| 0 <= i < |before| && before[i] == m;
      assert m == after[if i < k then i else i - 1];
    }
  }

  /** EXPUNGE takes exactly the first row of that uid out of the table and keeps
      its base as a tombstone. With distinct uids, every other row stays. */
  lemma ExpungedRows(s: Session, uid: u32)
    requires (exists m :: m in s.msgs && m.uid == uid) && FindUid(s.rows, uid) < |s.rows|
    ensures var t, r := Expunge(s, uid), s.rows[FindUid(s.rows, uid)];
            && multiset(t.rows) == multiset(s.rows) - multiset{r} && r.uid == uid
            && (DistinctUids(s.rows) ==> forall q :: q in t.rows <==> q in s.rows && q.uid != uid)
            && t.tomb == if r.base == "" then s.tomb else s.tomb + [r.base]
  {
    var t, i := Expunge(s, uid), FindUid(s.rows, uid);
    var m0 :| m0 in s.msgs && m0.uid == uid;
    var j0 :| 0 <= j0 < |s.msgs| && s.msgs[j0] == m0;
    assert t.rows == s.rows[i := s.rows[|s.rows| - 1]][..|s.rows| - 1];
    hide FindUid, FindMsg, DistinctUids;
    RowsWithout(s.rows, i);
  }

  lemma RowsWithout(rows: seq<Row>, i: nat)
    requires i < |rows|
    ensures var t := rows[i := rows[|rows| - 1]][..|rows| - 1];
            && multiset(t) == multiset(rows) - multiset{rows[i]}
            && (DistinctUids(rows) ==> forall q :: q in t <==> q in rows && q.uid != rows[i].uid)
  {
    SwapRemoveMultiset(rows, i);
    hide DistinctUids;
    if DistinctUids(rows) {
      forall q ensures q in rows[i := rows[|rows| - 1]][..|rows| - 1] <==> q in rows && q.uid != rows[i].uid {
        SwapRemoveMember(rows, i, q);
      }
    }
  }

  lemma SwapRemoveMultiset(rows: seq<Row>, i: nat)
    requires i < |rows|
    ensures multiset(rows[i := rows[|rows| - 1]][..|rows| - 1]) == multiset(rows) - multiset{rows[i]}
  {
    var n := |rows| - 1;
    var z, shorter := rows[n], rows[i := rows[n]][..n];
    if i == n {
      assert shorter == rows[..n] && rows == rows[..n] + [z];
    } else {
      var front, middle := rows[..i], rows[i + 1..n];
      assert rows == front + [rows[i]] + middle + [z];
      assert shorter == front + [z] + middle;
    }
  }

  lemma SwapRemoveMember(rows: seq<Row>, i: nat, q: Row)
    requires i < |rows| && DistinctUids(rows)
    ensures q in rows[i := rows[|rows| - 1]][..|rows| - 1] <==> q in rows && q.uid != rows[i].uid
  {
    var n := |rows| - 1;
    var shorter := rows[i := rows[n]][..n];
    assert forall j :: 0 <= j < n ==> shorter[j] == if j == i then rows[n] else rows[j];
    if q in shorter {
      var j :| 0 <= j < n && shorter[j] == q;
      assert q == if j == i then rows[n] else rows[j];
    }
    if q in rows && q.uid != rows[i].uid {
      var j :| 0 <= j < |rows| && rows[j] == q;
      assert if j < n then shorter[j] == q else shorter[i] == q;
    }
  }

  /** `after` is `before` with the modseq of element `k` replaced. */
  ghost predicate Bumped(before: seq<Msg>, k: nat, h: nat, after: seq<Msg>) {
    && k < |before| == |after| && after[k] == before[k].(modseq := h)
    && forall i :: 0 <= i < |before| && i != k ==> after[i] == before[i]
  }

  /** STORE gives the first message of that uid, its row and the session a new
      modseq, and changes nothing else; a message without a row is given one. */
  lemma StoredSession(s: Session, uid: u32)
    requires exists m :: m in s.msgs && m.uid == uid
    ensures var t, k, i, h := Store(s, uid), FindMsg(s.msgs, uid), FindUid(s.rows, uid), s.highest + 1;
            && t.highest == h && Bumped(s.msgs, k, h, t.msgs) && s.msgs[k].uid == uid
            && (forall j :: 0 <= j < k ==> s.msgs[j].uid != uid)
            && (i < |s.rows| ==> |t.rows| == |s.rows| && t.rows[i] == s.rows[i].(modseq := h))
            && (i == |s.rows| ==> t.rows == s.rows + [Row(s.msgs[k].base, uid, h, s.msgs[k].mid)])
            && (forall j :: 0 <= j < |s.rows| && j != i ==> t.rows[j] == s.rows[j])
            && t.uidvalidity == s.uidvalidity && t.uidnext == s.uidnext && t.tomb == s.tomb
  {
    var m0 :| m0 in s.msgs && m0.uid == uid;
    var j0 :| 0 <= j0 < |s.msgs| && s.msgs[j0] == m0;
  }

  /** No message of the view has a modseq above the session's. */
  ghost predicate Topped(s: Session) {
    forall m :: m in s.msgs ==> m.modseq <= s.highest
  }

  lemma {:induction false} HighestIsMax(msgs: seq<Msg>)
    ensures forall m :: m in msgs ==> m.modseq <= Highest(msgs)
    ensures Highest(msgs) == 0 || exists m :: m in msgs && m.modseq == Highest(msgs)
  {
    if msgs != [] {
      var front, m := msgs[..|msgs| - 1], msgs[|msgs| - 1];
      HighestIsMax(front);
      assert msgs == front + [m];
      assert m in msgs && forall x :: x in front ==> x in msgs;
    }
  }

  /** The modseq that a scan leaves is the largest of its view, 0 for an empty one. */
  lemma ScanIsTopped(disk: Option<Table>, files: seq<File>, now: u32)
    ensures var s := Scan(disk, files, now);
            && Topped(s) && (s.msgs == [] ==> s.highest == 0)
            && (s.msgs != [] && s.highest != 0 ==> exists m :: m in s.msgs && m.modseq == s.highest)
  {
    var t := Load(disk, now);
    HighestIsMax(Assign(t.rows, files, t.uidnext).1);
  }

  /** STORE and EXPUNGE keep that, and STORE gives its message a modseq above that
      of every other message: a second STORE a higher one than the first. */
  lemma StoreTops(s: Session, uid: u32)
    requires Topped(s)
    ensures Topped(Store(s, uid)) && Topped(Expunge(s, uid))
    ensures (exists m :: m in s.msgs && m.uid == uid) ==>
              var t, k := Store(s, uid), FindMsg(s.msgs, uid);
              k < |t.msgs| && forall i :: 0 <= i < |t.msgs| && i != k ==> t.msgs[i].modseq < t.msgs[k].modseq
  {
    if exists m :: m in s.msgs && m.uid == uid {
      StoredSession(s, uid);
      ExpungedView(s, uid);
      var k := FindMsg(s.msgs, uid);
      hide Store, Expunge, FindMsg;
      forall i | 0 <= i < |s.msgs| ensures s.msgs[i].modseq <= s.highest { assert s.msgs[i] in s.msgs; }
      forall m | m in Expunge(s, uid).msgs ensures m.modseq <= s.highest {
        var i :| 0 <= i < |Expunge(s, uid).msgs| && Expunge(s, uid).msgs[i] == m;
        assert m == s.msgs[if i < k then i else i + 1];
      }
    } else {
      UnknownUid(s, uid);
    }
  }

  lemma SecondStoreIsHigher(s: Session, uid: u32, next: u32)
    requires (exists m :: m in s.msgs && m.uid == uid) && exists m :: m in s.msgs && m.uid == next
    ensures var t := Store(s, uid);
            Store(t, next).highest > t.highest > s.highest
  {
    StoredSession(s, uid);
    var m :| m in s.msgs && m.uid == next;
    var j :| 0 <= j < |s.msgs| && s.msgs[j] == m;
    var t := Store(s, uid);
    hide Store, FindMsg, FindUid;
    assert t.msgs[j].uid == next && t.msgs[j] in t.msgs;
    StoredSession(t, next);
  }
}
