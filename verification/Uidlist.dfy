/** The uidlist sidecar: the table that gives each maildir file its uid, and
    the merge of a stale in-memory copy with the table on disk. */
module Uidlist {
  import opened Common

  /** One row.  An absent Message-ID is "". */
  datatype Row = Row(base: string, uid: u32, modseq: nat, mid: string)

  datatype Table = Table(uidvalidity: u32, uidnext: u32, rows: seq<Row>)

  function Uids(rows: seq<Row>): set<u32> {
    set r <- rows :: r.uid
  }

  function Bases(rows: seq<Row>): set<string> {
    set r <- rows :: r.base
  }

  ghost predicate DistinctBases(rows: seq<Row>) {
    forall i, j :: 0 <= i < j < |rows| ==> rows[i].base != rows[j].base
  }

  ghost predicate DistinctUids(rows: seq<Row>) {
    forall i, j :: 0 <= i < j < |rows| ==> rows[i].uid != rows[j].uid
  }

  /** Every uid is nonzero and smaller than `un`. */
  ghost predicate UidsBelow(rows: seq<Row>, un: int) {
    forall r :: r in rows ==> 0 < r.uid < un
  }

  /** What a published table must satisfy (RFC 3501, section 2.3.1.1): one uid
      per message, no uid twice, and every future uid larger than all of them. */
  ghost predicate Sound(t: Table) {
    && DistinctBases(t.rows)
    && DistinctUids(t.rows)
    && UidsBelow(t.rows, t.uidnext)
    && "" !in Bases(t.rows)
  }

  /** The uid the table gives to a base name, or 0: what the save reports for its probed base. */
  function UidOf(rows: seq<Row>, base: string): u32 {
    if rows == [] then 0
    else if rows[0].base == base then rows[0].uid
    else UidOf(rows[1..], base)
  }

  lemma {:induction false} UidOfMeaning(rows: seq<Row>, base: string)
    requires forall r :: r in rows ==> r.uid != 0
    requires DistinctBases(rows)
    ensures UidOf(rows, base) == 0 <==> base !in Bases(rows)
    ensures forall r :: r in rows && r.base == base ==> UidOf(rows, base) == r.uid
  {
    if rows != [] {
      UidOfMeaning(rows[1..], base);
      assert rows == [rows[0]] + rows[1..];
      assert Bases(rows) == {rows[0].base} + Bases(rows[1..]);
    }
  }

  // ---------------------------------------------------------------------
  // Row selection
  // ---------------------------------------------------------------------

  /** Rows the merge looks at: named, numbered and not deleted by this session. */
  predicate Eligible(r: Row, tomb: set<string>) {
    r.base != "" && r.uid != 0 && r.base !in tomb
  }

  /** Index of the row of `base`, or the length. */
  function Find(rows: seq<Row>, base: string): (i: nat)
    ensures i <= |rows|
    ensures i < |rows| ==> rows[i].base == base
    ensures forall j :: 0 <= j < i ==> rows[j].base != base
  {
    if rows == [] then 0
    else
      var k := Find(rows[..|rows| - 1], base);
      if k < |rows| - 1 then k
      else if rows[|rows| - 1].base == base then |rows| - 1
      else |rows|
  }

  /** One turn of the merge loop: a row already present is replaced only by a
      strictly higher modseq, in its own position. */
  function Absorb(acc: seq<Row>, r: Row, tomb: set<string>): seq<Row> {
    if !Eligible(r, tomb) then acc
    else
      var at := Find(acc, r.base);
      if at == |acc| then acc + [r]
      else if r.modseq <= acc[at].modseq then acc
      else acc[at := r]
  }

  function Select(src: seq<Row>, tomb: set<string>): seq<Row> {
    if src == [] then []
    else Absorb(Select(src[..|src| - 1], tomb), src[|src| - 1], tomb)
  }

  /** `src[k]` beats every other eligible row of its base: a strictly higher
      modseq than the earlier ones, at least the modseq of the later ones. */
  ghost predicate Wins(src: seq<Row>, k: int, tomb: set<string>) {
    && 0 <= k < |src|
    && Eligible(src[k], tomb)
    && forall j :: 0 <= j < |src| && j != k && Eligible(src[j], tomb) && src[j].base == src[k].base ==>
         if j < k then src[j].modseq < src[k].modseq else src[j].modseq <= src[k].modseq
  }

  function EligibleBases(src: seq<Row>, tomb: set<string>): set<string> {
    set r <- src | Eligible(r, tomb) :: r.base
  }

  lemma EligibleAppend(src: seq<Row>, r: Row, tomb: set<string>)
    ensures EligibleBases(src + [r], tomb) == EligibleBases(src, tomb) + if Eligible(r, tomb) then {r.base} else {}
  {
    hide Eligible;
    assert forall q :: q in src + [r] <==> q in src || q == r;
  }

  lemma BasesAppend(rows: seq<Row>, r: Row)
    ensures Bases(rows + [r]) == Bases(rows) + {r.base}
  {
    forall b | b in Bases(rows) + {r.base} ensures b in Bases(rows + [r]) {
      if b == r.base {
        assert (rows + [r])[|rows|] == r;
      } else {
        var q :| q in rows && q.base == b;
        assert q in rows + [r];
      }
    }
  }

  lemma BasesUpdate(rows: seq<Row>, i: nat, r: Row)
    requires i < |rows| && rows[i].base == r.base
    ensures Bases(rows[i := r]) == Bases(rows)
  {
    var res := rows[i := r];
    forall b | b in Bases(rows) ensures b in Bases(res) {
      var j :| 0 <= j < |rows| && rows[j].base == b;
      assert res[j] in res && res[j].base == b;
    }
    forall b | b in Bases(res) ensures b in Bases(rows) {
      var j :| 0 <= j < |res| && res[j].base == b;
      assert rows[j] in rows && rows[j].base == b;
    }
  }

  lemma AbsorbBases(acc: seq<Row>, r: Row, tomb: set<string>)
    requires DistinctBases(acc)
    ensures DistinctBases(Absorb(acc, r, tomb))
    ensures Bases(Absorb(acc, r, tomb)) == Bases(acc) + if Eligible(r, tomb) then {r.base} else {}
  {
    if Eligible(r, tomb) {
      var at := Find(acc, r.base);
      if at == |acc| {
        BasesAppend(acc, r);
      } else {
        BasesUpdate(acc, at, r);
        assert acc[at] in acc;
      }
    }
  }

  /** The selection has exactly one row for each eligible base. */
  lemma {:induction false} SelectBases(src: seq<Row>, tomb: set<string>)
    ensures DistinctBases(Select(src, tomb))
    ensures Bases(Select(src, tomb)) == EligibleBases(src, tomb)
  {
    if src != [] {
      var front, last := src[..|src| - 1], src[|src| - 1];
      SelectBases(front, tomb);
      AbsorbBases(Select(front, tomb), last, tomb);
      assert src == front + [last];
      EligibleAppend(front, last, tomb);
      hide Absorb, Eligible, EligibleBases, Bases, DistinctBases;
    }
  }

  /** Selected rows are eligible source rows. */
  lemma {:induction false} SelectFromSource(src: seq<Row>, tomb: set<string>)
    ensures |Select(src, tomb)| <= |src|
    ensures forall r :: r in Select(src, tomb) ==> r in src && Eligible(r, tomb)
  {
    if src != [] {
      var front, last := src[..|src| - 1], src[|src| - 1];
      SelectFromSource(front, tomb);
      assert src == front + [last];
    }
  }

  /** Every selected row is a winning row ... */
  lemma {:induction false} SelectedRowWins(src: seq<Row>, tomb: set<string>, i: nat) returns (k: nat)
    requires i < |Select(src, tomb)|
    ensures Wins(src, k, tomb) && src[k] == Select(src, tomb)[i]
  {
    var n := |src| - 1;
    var front, last := src[..n], src[n];
    var acc, res := Select(front, tomb), Select(src, tomb);
    SelectBases(front, tomb);
    if i < |acc| {
      k := SelectedRowWins(front, tomb, i);
      if Eligible(last, tomb) && last.base == acc[i].base {
        assert Find(acc, last.base) == i;
        if last.modseq > acc[i].modseq {
          LaterRowWins(src, tomb, k);
          return n;
        }
      }
      EarlierRowWins(src, tomb, k);
    } else {
      NewBaseWins(src, tomb);
      k := n;
    }
  }

  lemma NewBaseWins(src: seq<Row>, tomb: set<string>)
    requires src != [] && Eligible(src[|src| - 1], tomb)
    requires src[|src| - 1].base !in EligibleBases(src[..|src| - 1], tomb)
    ensures Wins(src, |src| - 1, tomb)
  {
    var front := src[..|src| - 1];
    assert forall j :: 0 <= j < |front| ==> front[j] == src[j] && front[j] in front;
  }

  lemma EarlierRowWins(src: seq<Row>, tomb: set<string>, k: nat)
    requires src != [] && Wins(src[..|src| - 1], k, tomb)
    requires var last := src[|src| - 1];
             Eligible(last, tomb) && last.base == src[k].base ==> last.modseq <= src[k].modseq
    ensures Wins(src, k, tomb)
  {
    var front := src[..|src| - 1];
    assert forall j :: 0 <= j < |front| ==> front[j] == src[j];
  }

  lemma LaterRowWins(src: seq<Row>, tomb: set<string>, k: nat)
    requires src != [] && Wins(src[..|src| - 1], k, tomb)
    requires var last := src[|src| - 1];
             Eligible(last, tomb) && last.base == src[k].base && last.modseq > src[k].modseq
    ensures Wins(src, |src| - 1, tomb)
  {
    var front := src[..|src| - 1];
    assert forall j :: 0 <= j < |front| ==> front[j] == src[j];
  }

  /** ... and every winning row is selected. */
  lemma {:induction false} WinnerIsSelected(src: seq<Row>, tomb: set<string>, k: nat)
    requires Wins(src, k, tomb)
    ensures src[k] in Select(src, tomb)
  {
    var n := |src| - 1;
    var front, last := src[..n], src[n];
    var acc := Select(front, tomb);
    assert forall j :: 0 <= j < n ==> front[j] == src[j];
    if k < n {
      assert Wins(front, k, tomb);
      WinnerIsSelected(front, tomb, k);
      SelectBases(front, tomb);
      WinnerStays(acc, last, tomb, src[k]);
    } else {
      var at := Find(acc, last.base);
      if at < |acc| {
        var j := SelectedRowWins(front, tomb, at);
        assert src[j].modseq < last.modseq;
      }
      assert Select(src, tomb)[at] == last;
    }
  }

  lemma WinnerStays(acc: seq<Row>, last: Row, tomb: set<string>, r: Row)
    requires DistinctBases(acc) && r in acc
    requires Eligible(last, tomb) && last.base == r.base ==> last.modseq <= r.modseq
    ensures r in Absorb(acc, last, tomb)
  {
    var i :| 0 <= i < |acc| && acc[i] == r;
    assert Absorb(acc, last, tomb)[i] == r;
  }

  // ---------------------------------------------------------------------
  // Uid resolution
  // ---------------------------------------------------------------------

  /** First loop over the selected rows: raise uidnext above every uid. */
  function Lift(un: u32, rows: seq<Row>): u32 {
    if rows == [] then un
    else
      var u := Lift(un, rows[..|rows| - 1]);
      var r := rows[|rows| - 1];
      if r.uid >= u then Add32(r.uid, 1) else u
  }

  /** Second loop: a uid seen before is replaced by a fresh one (0 is skipped
      when the counter rolls over) and the row's modseq follows the counter. */
  function Resolve(rows: seq<Row>, un: u32): (p: (seq<Row>, u32))
    ensures |p.0| == |rows|
  {
    if rows == [] then ([], un)
    else
      var p := Resolve(rows[..|rows| - 1], un);
      var r := rows[|rows| - 1];
      if r.uid !in Uids(p.0) then (p.0 + [r], p.1)
      else
        var m := Mint(p.1);
        (p.0 + [r.(uid := m.0, modseq := m.1)], m.1)
  }

  /** The uid minted from the counter, and the counter after it. */
  function Mint(un: u32): (m: (u32, u32)) {
    var next := Add32(un, 1);
    if un == 0 then (next, Add32(next, 1)) else (un, next)
  }

  /** Rows in the order the merge visits them: disk rows first, then the rows in
      memory; the side of the smaller uidvalidity generation is dropped. */
  function Sources(uidvalidity: u32, v: seq<Row>, disk: Option<Table>): seq<Row> {
    if disk.None? then v
    else if disk.value.uidvalidity == 0 || uidvalidity == 0 || disk.value.uidvalidity == uidvalidity then
      disk.value.rows + v
    else if disk.value.uidvalidity > uidvalidity then disk.value.rows
    else v
  }

  /** The counter the merge starts from: never below either side. */
  function StartNext(uidnext: u32, disk: Option<Table>): (un: u32)
    ensures un > 0 && un >= uidnext && (disk.Some? ==> un >= disk.value.uidnext)
  {
    var dun := if disk.Some? && disk.value.uidnext != 0 then disk.value.uidnext else 1;
    if uidnext > dun then uidnext else dun
  }

  function Generation(uidvalidity: u32, disk: Option<Table>): u32 {
    if disk.Some? && disk.value.uidvalidity > uidvalidity then disk.value.uidvalidity else uidvalidity
  }

  /** The whole merge: header and rows in memory, table on disk (if any), tombstones. */
  function Merge(uidvalidity: u32, uidnext: u32, v: seq<Row>, disk: Option<Table>, tomb: set<string>): Table {
    var sel := Select(Sources(uidvalidity, v, disk), tomb);
    var p := Resolve(sel, Lift(StartNext(uidnext, disk), sel));
    Table(Generation(uidvalidity, disk), p.1, p.0)
  }

  /** The least unbounded integer above `un - 1` and above every uid. */
  function Top(un: nat, rows: seq<Row>): (t: nat)
    ensures t >= un
    ensures forall r :: r in rows ==> r.uid < t
  {
    if rows == [] then un
    else
      var t := Top(un, rows[..|rows| - 1]);
      var r := rows[|rows| - 1];
      assert rows == rows[..|rows| - 1] + [r];
      if r.uid >= t then r.uid + 1 else t
  }

  /** How many rows carry a uid that an earlier row carries. */
  function Collisions(rows: seq<Row>): nat {
    if rows == [] then 0
    else
      var front := rows[..|rows| - 1];
      Collisions(front) + if rows[|rows| - 1].uid in Uids(front) then 1 else 0
  }

  /** The counter does not run out of 32-bit values. */
  predicate Room(un: nat, rows: seq<Row>) {
    Top(un, rows) + Collisions(rows) <= UINT32_MAX
  }

  /** What resolution does to row `i` of `rows`. */
  ghost predicate ResolvedRow(rows: seq<Row>, i: nat, r: Row, top: nat)
    requires i < |rows|
  {
    if rows[i].uid in Uids(rows[..i])
    then r.base == rows[i].base && r.mid == rows[i].mid && r.uid >= top && r.modseq == r.uid + 1
    else r == rows[i]
  }

  lemma {:induction false} LiftIsTop(un: u32, rows: seq<Row>)
    requires Top(un, rows) <= UINT32_MAX
    ensures Lift(un, rows) == Top(un, rows)
  {
    if rows != [] {
      LiftIsTop(un, rows[..|rows| - 1]);
    }
  }

  lemma UidsNone()
    ensures Uids([]) == {} && DistinctUids([])
  {
  }

  lemma DistinctAppend(rows: seq<Row>, r: Row)
    requires DistinctUids(rows) && r.uid !in Uids(rows)
    ensures DistinctUids(rows + [r])
  {
    assert forall i :: 0 <= i < |rows| ==> rows[i] in rows && rows[i].uid in Uids(rows);
  }

  lemma UidsAppend(rows: seq<Row>, r: Row)
    ensures Uids(rows + [r]) == Uids(rows) + {r.uid}
  {
    forall x | x in Uids(rows) + {r.uid} ensures x in Uids(rows + [r]) {
      if x == r.uid {
        assert (rows + [r])[|rows|] == r;
      } else {
        var q :| q in rows && q.uid == x;
        assert q in rows + [r];
      }
    }
  }

  /** What becomes of a row behind the resolved rows. */
  function Kept(rows: seq<Row>, r: Row, un: u32): Row {
    if r.uid !in Uids(rows) then r else r.(uid := Mint(un).0, modseq := Mint(un).1)
  }

  lemma ResolveNext(rows: seq<Row>, top: u32)
    ensures rows == [] ==> Resolve(rows, top) == ([], top) && Collisions(rows) == 0
    ensures rows != [] ==>
              var front, r := rows[..|rows| - 1], rows[|rows| - 1];
              var q := Resolve(front, top);
              && Resolve(rows, top) == (q.0 + [Kept(q.0, r, q.1)], if r.uid in Uids(q.0) then Mint(q.1).1 else q.1)
              && Collisions(rows) == Collisions(front) + if r.uid in Uids(front) then 1 else 0
  {
  }

  /** With room left, the uids after resolution are those before it and the
      minted ones, which are consecutive, and no uid occurs twice. */
  lemma {:induction false} ResolveUids(rows: seq<Row>, top: u32)
    requires forall r :: r in rows ==> 0 < r.uid < top
    requires 0 < top && top + Collisions(rows) <= UINT32_MAX
    ensures Resolve(rows, top).1 == top + Collisions(rows)
    ensures forall u :: u in Uids(Resolve(rows, top).0) <==> u in Uids(rows) || top <= u < top + Collisions(rows)
    ensures DistinctUids(Resolve(rows, top).0)
  {
    assert forall u :: u in Uids(rows) ==> u < top;
    hide Resolve, Collisions, Uids, DistinctUids;
    ResolveNext(rows, top);
    if rows != [] {
      var front, r := rows[..|rows| - 1], rows[|rows| - 1];
      assert rows == front + [r];
      ResolveUids(front, top);
      var q := Resolve(front, top);
      UidsAppend(front, r);
      var x := Kept(q.0, r, q.1);
      UidsAppend(q.0, x);
      assert x.uid !in Uids(q.0);
      DistinctAppend(q.0, x);
    } else {
      UidsNone();
    }
  }

  /** With room left, the first row of each uid is kept as it is and the others
      keep their base name and Message-ID. */
  lemma {:induction false} ResolveRows(rows: seq<Row>, top: u32, i: nat)
    requires forall r :: r in rows ==> 0 < r.uid < top
    requires 0 < top && top + Collisions(rows) <= UINT32_MAX
    requires i < |rows|
    ensures ResolvedRow(rows, i, Resolve(rows, top).0[i], top)
  {
    hide Uids;
    var n := |rows| - 1;
    var front := rows[..n];
    assert rows == front + [rows[n]];
    if i < n {
      ResolveRows(front, top, i);
      assert rows[..i] == front[..i];
    } else {
      ResolveUids(front, top);
    }
  }

  /** Both together. */
  lemma ResolveSound(rows: seq<Row>, top: u32)
    requires forall r :: r in rows ==> 0 < r.uid < top
    requires 0 < top && top + Collisions(rows) <= UINT32_MAX
    ensures var p := Resolve(rows, top);
            && p.1 == top + Collisions(rows)
            && DistinctUids(p.0)
            && UidsBelow(p.0, p.1)
            && (forall i :: 0 <= i < |rows| ==> ResolvedRow(rows, i, p.0[i], top))
  {
    ResolveUids(rows, top);
    forall i | 0 <= i < |rows| ensures ResolvedRow(rows, i, Resolve(rows, top).0[i], top) {
      ResolveRows(rows, top, i);
    }
    assert forall r :: r in Resolve(rows, top).0 ==> r.uid in Uids(Resolve(rows, top).0);
  }

  /** A uid of 2^32 - 1 among the rows survives resolution in some row. */
  lemma {:induction false} LargestUidStays(rows: seq<Row>, un: u32)
    requires UINT32_MAX in Uids(rows)
    ensures UINT32_MAX in Uids(Resolve(rows, un).0)
  {
    var n := |rows| - 1;
    var front, r := rows[..n], rows[n];
    assert rows == front + [r];
    UidsAppend(front, r);
    var q, p := Resolve(front, un), Resolve(rows, un);
    UidsAppend(q.0, p.0[n]);
    assert p.0 == q.0 + [p.0[n]];
    if r.uid != UINT32_MAX {
      LargestUidStays(front, un);
    }
  }

  /** Once the counter runs out, a row is published with the uid 2^32 - 1. */
  lemma {:induction false} OverflowMintsLargest(rows: seq<Row>, top: u32)
    requires forall r :: r in rows ==> 0 < r.uid < top
    requires 0 < top && top + Collisions(rows) > UINT32_MAX
    ensures UINT32_MAX in Uids(Resolve(rows, top).0)
  {
    if rows != [] {
      var n := |rows| - 1;
      var front, r := rows[..n], rows[n];
      assert rows == front + [r];
      var q, p := Resolve(front, top), Resolve(rows, top);
      UidsAppend(q.0, p.0[n]);
      assert p.0 == q.0 + [p.0[n]];
      if top + Collisions(front) > UINT32_MAX {
        OverflowMintsLargest(front, top);
      } else {
        ResolveUids(front, top);
      }
    }
  }

  /** Exactly when the counter has room are the resolved uids distinct and below it. */
  lemma ResolveSoundIff(rows: seq<Row>, un: u32)
    requires un > 0 && forall r :: r in rows ==> r.uid != 0
    ensures var p := Resolve(rows, Lift(un, rows));
            && (DistinctUids(p.0) && UidsBelow(p.0, p.1) <==> Room(un, rows))
            && (Room(un, rows) ==> p.1 == Top(un, rows) + Collisions(rows))
            && (Room(un, rows) ==> forall i :: 0 <= i < |rows| ==> ResolvedRow(rows, i, p.0[i], Top(un, rows)))
  {
    var p := Resolve(rows, Lift(un, rows));
    if Room(un, rows) {
      LiftIsTop(un, rows);
      ResolveSound(rows, Top(un, rows));
    } else {
      if Top(un, rows) > UINT32_MAX {
        TopReached(un, rows);
        LargestUidStays(rows, Lift(un, rows));
      } else {
        LiftIsTop(un, rows);
        OverflowMintsLargest(rows, Top(un, rows));
      }
      assert UINT32_MAX in Uids(p.0);
    }
  }

  lemma {:induction false} TopReached(un: u32, rows: seq<Row>)
    ensures Top(un, rows) == un || exists r :: r in rows && Top(un, rows) == r.uid + 1
  {
    if rows != [] {
      TopReached(un, rows[..|rows| - 1]);
      assert rows[|rows| - 1] in rows;
    }
  }

  lemma {:induction false} CollisionsAtMost(rows: seq<Row>)
    ensures Collisions(rows) <= |rows|
  {
    if rows != [] {
      CollisionsAtMost(rows[..|rows| - 1]);
    }
  }

  /** A save of `n` rows has room when every uid is more than `n` below the end of the 32-bit range. */
  lemma RoomForFewRows(un: u32, rows: seq<Row>, bound: nat)
    requires un <= bound && (forall r :: r in rows ==> r.uid < bound)
    requires bound + |rows| <= UINT32_MAX
    ensures Room(un, rows)
  {
    TopReached(un, rows);
    CollisionsAtMost(rows);
  }

  /** What is minted is the counter, or 1 behind the end of the 32-bit range: never
      0, and followed by the counter just behind it. */
  lemma MintsCounter(un: u32)
    ensures Mint(un).0 == if un == 0 then 1 else un
    ensures Mint(un).1 == if Mint(un).0 == UINT32_MAX then 0 else Mint(un).0 + 1
  {
  }

  /** Room or not, resolution gives no row the uid 0, which stands for none. */
  lemma {:induction false} ResolveGivesNoZero(rows: seq<Row>, un: u32)
    requires forall r :: r in rows ==> r.uid != 0
    ensures forall r :: r in Resolve(rows, un).0 ==> r.uid != 0
  {
    if rows != [] {
      ResolveGivesNoZero(rows[..|rows| - 1], un);
      MintsCounter(Resolve(rows[..|rows| - 1], un).1);
    }
  }
}
