/** The mailbox session as the daemon runs it: loops over the base-name table
    and in-place changes of the session object. */
module MailboxStore {
  import opened Common
  import opened Uidlist
  import opened Mailbox
  import opened Probing
  import opened BaseHashes
  import opened UidlistStore

  /** The table sends each base to the position of its last row. */
  ghost predicate LastRows(idx: map<string, u32>, rows: seq<Row>) {
    && |idx| <= |rows|
    && (forall b :: b in idx <==> Lookup(rows, b).Some?)
    && (forall b :: b in idx ==> idx[b] < |rows| && Lookup(rows, b) == Some(rows[idx[b]]))
  }

  lemma NoLastRows()
    ensures LastRows(map[], [])
  {
  }

  lemma LastRowsStep(idx: map<string, u32>, rows: seq<Row>, r: Row)
    requires LastRows(idx, rows) && |rows| <= UINT32_MAX
    ensures LastRows(idx[r.base := |rows|], rows + [r])
    ensures |idx[r.base := |rows|]| <= |idx| + 1
  {
    assert (rows + [r])[..|rows|] == rows;
  }

  /** Index a loaded uidlist by base name. */
  method IndexRows(rows: seq<Row>) returns (h: BaseHash)
    requires |rows| <= UINT32_MAX
    ensures h.Valid() && fresh(h) && fresh(h.key) && fresh(h.val)
    ensures LastRows(h.Contents, rows)
  {
    hide BaseHash.Valid, PowerOfTwo, LastRows;
    h := new BaseHash(|rows|);
    NoLastRows();
    for i := 0 to |rows|
      invariant |h.Contents| <= i && h.Valid() && fresh(h) && fresh(h.key) && fresh(h.val)
      invariant |rows| < h.key.Length
      invariant LastRows(h.Contents, rows[..i])
    {
      LastRowsStep(h.Contents, rows[..i], rows[i]);
      assert rows[..i + 1] == rows[..i] + [rows[i]];
      h.Put(rows[i].base, i);
    }
    assert rows[..|rows|] == rows;
  }

  /** The loop of scan_subdir over the listed files. */
  method AssignFiles(known: seq<Row>, files: seq<File>, start: u32)
    returns (rows: seq<Row>, msgs: seq<Msg>, un: u32)
    requires |known| <= UINT32_MAX
    ensures (rows, msgs, un) == Assign(known, files, start)
  {
    hide BaseHash.Valid, PowerOfTwo;
    var h := IndexRows(known);
    rows, msgs, un := known, [], start;
    for i := 0 to |files|
      invariant h.Valid() && LastRows(h.Contents, known)
      invariant (rows, msgs, un) == Assign(known, files[..i], start)
    {
      var f := files[i];
      var at := h.Get(f.base);
      var uid, modseq, mid := 0, 1, "";
      if at.Some? {
        uid, modseq, mid := known[at.value].uid, known[at.value].modseq, known[at.value].mid;
      }
      if uid == 0 {
        uid := un;
        un := Add32(un, 1);
        modseq := un;
        mid := f.mid;
        rows := rows + [Row(f.base, uid, modseq, mid)];
      }
      msgs := msgs + [Msg(uid, f.base, modseq, mid)];
      assert files[..i + 1][..i] == files[..i];
    }
    assert files[..|files|] == files;
  }

  ghost predicate AscendingUids(msgs: seq<Msg>) {
    forall i, j :: 0 <= i < j < |msgs| ==> msgs[i].uid <= msgs[j].uid
  }

  /** The table of seen names holds, for each, the uid of its last message. */
  ghost predicate Seen(idx: map<string, u32>, msgs: seq<Msg>) {
    && |idx| <= |msgs|
    && (forall b :: b in idx <==> exists m :: m in msgs && m.base == b)
    && (forall b :: b in idx ==> idx[b] == SeenUid(msgs, b))
  }

  lemma {:induction false} SeenUidBound(msgs: seq<Msg>, base: string, u: u32)
    requires forall m :: m in msgs ==> m.uid <= u
    ensures SeenUid(msgs, base) <= u
  {
    if msgs != [] {
      assert msgs == msgs[..|msgs| - 1] + [msgs[|msgs| - 1]];
      SeenUidBound(msgs[..|msgs| - 1], base, u);
    }
  }

  lemma SeenUidAppend(msgs: seq<Msg>, m: Msg, base: string)
    requires AscendingUids(msgs + [m])
    ensures SeenUid(msgs + [m], base) == if base == m.base then m.uid else SeenUid(msgs, base)
  {
    var all := msgs + [m];
    assert all[..|msgs|] == msgs && all[|msgs|] == m;
    assert forall i :: 0 <= i < |msgs| ==> all[i] == msgs[i];
    SeenUidBound(msgs, base, m.uid);
  }

  lemma SeenNone()
    ensures Seen(map[], [])
  {
  }

  lemma SeenStep(idx: map<string, u32>, msgs: seq<Msg>, m: Msg)
    requires Seen(idx, msgs) && AscendingUids(msgs + [m])
    ensures |idx| <= |msgs| && Seen(idx[m.base := m.uid], msgs + [m])
  {
    hide AscendingUids, SeenUid;
    var all := msgs + [m];
    assert forall k :: k in all <==> k in msgs || k == m;
    forall b | b in idx || b == m.base
      ensures idx[m.base := m.uid][b] == SeenUid(all, b)
    {
      SeenUidAppend(msgs, m, b);
    }
  }

  method IndexSeen(msgs: seq<Msg>) returns (h: BaseHash)
    requires AscendingUids(msgs)
    ensures h.Valid() && fresh(h) && fresh(h.key) && fresh(h.val)
    ensures Seen(h.Contents, msgs)
  {
    hide BaseHash.Valid, PowerOfTwo, AscendingUids, Seen;
    h := new BaseHash(|msgs|);
    SeenNone();
    for i := 0 to |msgs|
      invariant h.Valid() && fresh(h) && fresh(h.key) && fresh(h.val)
      invariant |msgs| < h.key.Length
      invariant Seen(h.Contents, msgs[..i])
    {
      AscendingPrefix(msgs, i + 1);
      assert msgs[..i + 1] == msgs[..i] + [msgs[i]];
      SeenStep(h.Contents, msgs[..i], msgs[i]);
      h.Put(msgs[i].base, msgs[i].uid);
    }
    assert msgs[..|msgs|] == msgs;
  }

  lemma AscendingPrefix(msgs: seq<Msg>, n: nat)
    requires AscendingUids(msgs) && n <= |msgs|
    ensures AscendingUids(msgs[..n])
  {
  }

  /** The prune of mbox_scan over the view in uid order. */
  method PruneVanished(all: seq<Row>, msgs: seq<Msg>) returns (rows: seq<Row>, tomb: seq<string>)
    requires AscendingUids(msgs)
    ensures (rows, tomb) == Prune(all, 0, msgs, [])
  {
    hide BaseHash.Valid, AscendingUids;
    var seen := IndexSeen(msgs);
    rows, tomb := all, [];
    var i := 0;
    while i < |rows|
      invariant i <= |rows| && seen.Valid() && Seen(seen.Contents, msgs)
      invariant Prune(rows, i, msgs, tomb) == Prune(all, 0, msgs, [])
      decreases |rows| - i
    {
      var u := seen.Get(rows[i].base);
      if u.Some? && u.value == rows[i].uid {
        i := i + 1;
      } else {
        tomb := TombAdd(tomb, rows[i].base);
        rows := rows[i := rows[|rows| - 1]][..|rows| - 1];
      }
    }
  }

  /** An opened mailbox. */
  class Mbox {
    var uidvalidity: u32
    var uidnext: u32
    var uidmap: seq<Row>
    var tomb: seq<string>
    var highestmodseq: nat
    var msgs: seq<Msg>

    ghost function State(): Session
      reads this
    {
      Session(uidvalidity, uidnext, uidmap, tomb, highestmodseq, msgs)
    }

    /** mbox_register: load, append one row. */
    constructor Register(disk: Option<Table>, base: string, mid: string, now: u32)
      ensures State() == RegisterSnapshot(disk, base, mid, now)
    {
      var uv, un, rows := now, 1, [];
      if disk.Some? {
        uv, un, rows := disk.value.uidvalidity, disk.value.uidnext, disk.value.rows;
      }
      if un == 0 { un := 1; }
      var uid := un;
      un := Add32(un, 1);
      uidvalidity, uidnext := uv, un;
      uidmap := rows + [Row(base, uid, un, mid)];
      tomb, highestmodseq, msgs := [], 0, [];
    }

    method FindView(uid: u32) returns (k: nat)
      ensures k == FindMsg(msgs, uid)
    {
      k := 0;
      while k < |msgs| && msgs[k].uid != uid
        invariant k <= |msgs|
        invariant FindMsg(msgs, uid) == k + FindMsg(msgs[k..], uid)
      {
        assert msgs[k..][1..] == msgs[k + 1..];
        k := k + 1;
      }
    }

    method FindRow(uid: u32) returns (k: nat)
      ensures k == FindUid(uidmap, uid)
    {
      k := 0;
      while k < |uidmap| && uidmap[k].uid != uid
        invariant k <= |uidmap|
        invariant FindUid(uidmap, uid) == k + FindUid(uidmap[k..], uid)
      {
        assert uidmap[k..][1..] == uidmap[k + 1..];
        k := k + 1;
      }
    }

    /** imapd_mbox_store: bump the modseq of a message and of its row. */
    method StoreFlags(uid: u32) returns (ok: bool)
      modifies this
      ensures State() == Store(old(State()), uid)
      ensures ok <==> exists m :: m in old(msgs) && m.uid == uid
    {
      hide FindMsg, FindUid;
      var m := FindView(uid);
      if m == |msgs| { return false; }
      assert msgs[m] in msgs;
      highestmodseq := highestmodseq + 1;
      var i := FindRow(uid);
      if i < |uidmap| {
        uidmap := uidmap[i := uidmap[i].(modseq := highestmodseq)];
      } else {
        uidmap := uidmap + [Row(msgs[m].base, uid, highestmodseq, msgs[m].mid)];
      }
      msgs := msgs[m := msgs[m].(modseq := highestmodseq)];
      ok := true;
    }

    /** imapd_mbox_expunge with uidmap_remove: drop the message and its row. */
    method Remove(uid: u32) returns (ok: bool)
      modifies this
      ensures State() == Expunge(old(State()), uid)
      ensures ok <==> exists m :: m in old(msgs) && m.uid == uid
    {
      hide FindMsg, FindUid;
      var m := FindView(uid);
      if m == |msgs| { return false; }
      assert msgs[m] in msgs;
      msgs := msgs[..m] + msgs[m + 1..];
      var i := FindRow(uid);
      if i < |uidmap| {
        tomb := TombAdd(tomb, uidmap[i].base);
        uidmap := uidmap[i := uidmap[|uidmap| - 1]][..|uidmap| - 1];
      }
      ok := true;
    }

    /** imapd_uidlist_save with the lock held: the table written, and the uid it
        holds for the probed base. */
    method SaveLocked(disk: Option<Table>, probe: string) returns (out: Table, uid: u32)
      requires |tomb| <= UINT32_MAX
      requires |uidmap| + (if disk.Some? then |disk.value.rows| else 0) <= UINT32_MAX
      ensures out == Save(State(), disk)
      ensures uid == UidOf(out.rows, probe)
    {
      assert (set b | b in tomb) == Tombs(State());
      out := MergeTables(tomb, uidvalidity, uidnext, uidmap, disk);
      uid := ProbeUid(out.rows, probe);
    }
  }

  /** mbox_register: the table as loaded, and as it stands when the lock is taken.
      A base that is already registered is reported and nothing is written; any
      other gets a row, and the uid reported is the one the written table holds. */
  method RegisterMessage(loaded: Option<Table>, atSave: Option<Table>, base: string, mid: string, now: u32)
    returns (file: Option<Table>, uv: u32, uid: u32)
    requires (if loaded.Some? then |loaded.value.rows| else 0) + 1
             + (if atSave.Some? then |atSave.value.rows| else 0) <= UINT32_MAX
    ensures var t := Load(loaded, now);
            && uv == t.uidvalidity
            && (if base in Bases(t.rows) then file == atSave && uid == UidOf(t.rows, base)
                else file == Some(Save(RegisterSnapshot(loaded, base, mid, now), atSave))
                     && uid == UidOf(file.value.rows, base))
  {
    var rows := if loaded.Some? then loaded.value.rows else [];
    uv := if loaded.Some? then loaded.value.uidvalidity else now;
    var i := 0;
    while i < |rows| && rows[i].base != base
      invariant i <= |rows| && forall k :: 0 <= k < i ==> rows[k].base != base
      invariant UidOf(rows[i..], base) == UidOf(rows, base)
    {
      assert rows[i..][1..] == rows[i + 1..];
      i := i + 1;
    }
    if i < |rows| {
      assert rows[i] in rows;
      return atSave, uv, rows[i].uid;
    }
    assert base !in Bases(rows);
    var d := new Mbox.Register(loaded, base, mid, now);
    var out: Table;
    out, uid := d.SaveLocked(atSave, base);
    file := Some(out);
  }
}
