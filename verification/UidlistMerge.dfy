/** What a locked save publishes: soundness, completeness and uid stability of
    the merged table, for every snapshot and every table on disk. */
module UidlistMerge {
  import opened Common
  import opened Uidlist

  /** The rows the merge selects before uid collisions are resolved. */
  function Selected(uidvalidity: u32, v: seq<Row>, disk: Option<Table>, tomb: set<string>): seq<Row> {
    Select(Sources(uidvalidity, v, disk), tomb)
  }

  /** The 32-bit uid counter does not run out in this save. */
  predicate HasRoom(uidvalidity: u32, uidnext: u32, v: seq<Row>, disk: Option<Table>, tomb: set<string>) {
    Room(StartNext(uidnext, disk), Selected(uidvalidity, v, disk, tomb))
  }

  /** Both sides belong to one uidvalidity generation. */
  predicate SameGeneration(uidvalidity: u32, disk: Table) {
    disk.uidvalidity == 0 || uidvalidity == 0 || disk.uidvalidity == uidvalidity
  }

  /** The published table is sound exactly when the 32-bit counter has room,
      whatever the snapshot and the disk hold; the counter and the generation
      never go back. */
  lemma MergeIsSound(uidvalidity: u32, uidnext: u32, v: seq<Row>, disk: Option<Table>, tomb: set<string>)
    ensures var out := Merge(uidvalidity, uidnext, v, disk, tomb);
            && (Sound(out) <==> HasRoom(uidvalidity, uidnext, v, disk, tomb))
            && out.uidvalidity >= uidvalidity
            && (disk.Some? ==> out.uidvalidity >= disk.value.uidvalidity)
            && (out.uidvalidity == uidvalidity || (disk.Some? && out.uidvalidity == disk.value.uidvalidity))
            && (HasRoom(uidvalidity, uidnext, v, disk, tomb) ==>
                  && out.uidnext >= uidnext
                  && (disk.Some? ==> out.uidnext >= disk.value.uidnext))
  {
    var src := Sources(uidvalidity, v, disk);
    var sel := Select(src, tomb);
    SelectBases(src, tomb);
    SelectFromSource(src, tomb);
    ResolveSoundIff(sel, StartNext(uidnext, disk));
    ResolveKeepsNames(sel, Lift(StartNext(uidnext, disk), sel));
  }

  /** Row by row, the same base names and Message-IDs. */
  ghost predicate SameNames(rows: seq<Row>, other: seq<Row>) {
    && |rows| == |other|
    && forall i :: 0 <= i < |rows| ==> rows[i].base == other[i].base && rows[i].mid == other[i].mid
  }

  lemma SameNamesSameBases(rows: seq<Row>, other: seq<Row>)
    requires SameNames(rows, other)
    ensures Bases(rows) <= Bases(other)
    ensures DistinctBases(rows) ==> DistinctBases(other)
  {
    forall b | b in Bases(rows) ensures b in Bases(other) {
      var i := BaseIndex(rows, b);
      assert other[i] in other;
    }
  }

  lemma BaseIndex(rows: seq<Row>, b: string) returns (i: nat)
    requires b in Bases(rows)
    ensures i < |rows| && rows[i].base == b
  {
    var r :| r in rows && r.base == b;
    i :| 0 <= i < |rows| && rows[i] == r;
  }

  lemma {:induction false} ResolveSameNames(rows: seq<Row>, un: u32)
    ensures SameNames(rows, Resolve(rows, un).0)
  {
    if rows != [] { ResolveSameNames(rows[..|rows| - 1], un); }
  }

  /** Resolution never renames, drops or reorders a row, room or not. */
  lemma ResolveKeepsNames(rows: seq<Row>, un: u32)
    ensures SameNames(rows, Resolve(rows, un).0)
    ensures Bases(Resolve(rows, un).0) == Bases(rows)
    ensures DistinctBases(rows) ==> DistinctBases(Resolve(rows, un).0)
  {
    hide Bases, Resolve;
    ResolveSameNames(rows, un);
    SameNamesSameBases(rows, Resolve(rows, un).0);
    SameNamesSameBases(Resolve(rows, un).0, rows);
  }

  /** No registration is lost: a save within one generation publishes exactly
      the bases of either side, minus the tombstones of the saver. */
  lemma MergePublishesUnion(uidvalidity: u32, uidnext: u32, v: seq<Row>, disk: Table, tomb: set<string>)
    requires SameGeneration(uidvalidity, disk)
    requires forall r :: r in disk.rows + v ==> r.base != "" && r.uid != 0
    ensures Bases(Merge(uidvalidity, uidnext, v, Some(disk), tomb).rows) == Bases(disk.rows) + Bases(v) - tomb
  {
    var src := disk.rows + v;
    SelectBases(src, tomb);
    ResolveKeepsNames(Select(src, tomb), Lift(StartNext(uidnext, Some(disk)), Select(src, tomb)));
    assert EligibleBases(src, tomb) == Bases(disk.rows) + Bases(v) - tomb by {
      forall b | b in Bases(disk.rows) + Bases(v) - tomb ensures b in EligibleBases(src, tomb) {
        if b in Bases(disk.rows) {
          var r :| r in disk.rows && r.base == b;
          assert r in src;
        } else {
          var r :| r in v && r.base == b;
          assert r in src;
        }
      }
    }
  }

  /** Named, numbered rows. */
  ghost predicate AllNamed(rows: seq<Row>) {
    forall r :: r in rows ==> r.base != "" && r.uid != 0
  }

  lemma {:induction false} NamedAreEligible(rows: seq<Row>, tomb: set<string>)
    requires AllNamed(rows)
    ensures EligibleBases(rows, tomb) == Bases(rows) - tomb
  {
    forall b | b in Bases(rows) - tomb ensures b in EligibleBases(rows, tomb) {
      var r :| r in rows && r.base == b;
      assert Eligible(r, tomb);
    }
  }

  /** Between two generations nothing is mixed: a save by a newer generation
      publishes exactly the snapshot's bases, a save by an older one exactly the
      file's, a first save the snapshot's, each without the saver's tombstones and
      under the newer generation. */
  lemma MergePublishesNewest(uidvalidity: u32, uidnext: u32, v: seq<Row>, disk: Option<Table>, tomb: set<string>)
    requires AllNamed(v) && (disk.Some? ==> AllNamed(disk.value.rows))
    ensures var out := Merge(uidvalidity, uidnext, v, disk, tomb);
            && (disk.None? ==> Bases(out.rows) == Bases(v) - tomb && out.uidvalidity == uidvalidity)
            && (disk.Some? && 0 < disk.value.uidvalidity < uidvalidity ==>
                  Bases(out.rows) == Bases(v) - tomb && out.uidvalidity == uidvalidity)
            && (disk.Some? && 0 < uidvalidity < disk.value.uidvalidity ==>
                  Bases(out.rows) == Bases(disk.value.rows) - tomb && out.uidvalidity == disk.value.uidvalidity)
  {
    var src := Sources(uidvalidity, v, disk);
    SelectBases(src, tomb);
    ResolveKeepsNames(Select(src, tomb), Lift(StartNext(uidnext, disk), Select(src, tomb)));
    hide Select, Resolve, Bases, EligibleBases, AllNamed;
    NamedAreEligible(v, tomb);
    if disk.Some? { NamedAreEligible(disk.value.rows, tomb); }
  }

  /** Whatever the inputs and with the counter run out, no row is published without a
      name or under the uid 0. */
  lemma MergePublishesNumbered(uidvalidity: u32, uidnext: u32, v: seq<Row>, disk: Option<Table>, tomb: set<string>)
    ensures forall r :: r in Merge(uidvalidity, uidnext, v, disk, tomb).rows ==>
              r.uid != 0 && r.base != "" && r.base !in tomb
  {
    var src := Sources(uidvalidity, v, disk);
    var sel := Select(src, tomb);
    var un := Lift(StartNext(uidnext, disk), sel);
    SelectFromSource(src, tomb);
    ResolveGivesNoZero(sel, un);
    ResolveSameNames(sel, un);
    var out := Resolve(sel, un).0;
    hide Select, Resolve;
    forall r | r in out ensures r.uid != 0 && r.base != "" && r.base !in tomb {
      var i :| 0 <= i < |out| && out[i] == r;
      assert sel[i] in sel;
    }
  }

  /** The row chosen for a base found on both sides: memory only if its modseq
      is strictly higher, otherwise disk. */
  lemma MergePicksHigherModseq(uidvalidity: u32, v: seq<Row>, disk: Table, tomb: set<string>, d: nat, m: nat)
    requires SameGeneration(uidvalidity, disk)
    requires DistinctBases(disk.rows) && DistinctBases(v)
    requires d < |disk.rows| && m < |v| && disk.rows[d].base == v[m].base
    requires Eligible(disk.rows[d], tomb) && Eligible(v[m], tomb)
    ensures (if v[m].modseq > disk.rows[d].modseq then v[m] else disk.rows[d])
            in Selected(uidvalidity, v, Some(disk), tomb)
  {
    var src := disk.rows + v;
    assert src[|disk.rows| + m] == v[m] && src[d] == disk.rows[d];
    if v[m].modseq > disk.rows[d].modseq {
      assert Wins(src, |disk.rows| + m, tomb);
      WinnerIsSelected(src, tomb, |disk.rows| + m);
    } else {
      assert Wins(src, d, tomb);
      WinnerIsSelected(src, tomb, d);
    }
  }

  // ---------------------------------------------------------------------
  // Stability of published uids
  // ---------------------------------------------------------------------

  /** Memory rows that would override a row on disk carry the uid the disk row has. */
  ghost predicate OverridesAgree(v: seq<Row>, disk: Table, tomb: set<string>) {
    forall r, d :: r in v && d in disk.rows && Eligible(r, tomb) && r.base == d.base && r.modseq > d.modseq ==>
      r.uid == d.uid
  }

  /** Every row on disk that this session did not delete is published with its uid. */
  ghost predicate KeepsDiskUids(disk: Table, tomb: set<string>, out: Table) {
    forall d :: d in disk.rows && d.base !in tomb ==> UidOf(out.rows, d.base) == d.uid
  }

  /** Selecting from more rows keeps the bases already selected in place. */
  lemma {:induction false} SelectExtends(src: seq<Row>, more: seq<Row>, tomb: set<string>)
    ensures |Select(src, tomb)| <= |Select(src + more, tomb)|
    ensures forall i :: 0 <= i < |Select(src, tomb)| ==> Select(src + more, tomb)[i].base == Select(src, tomb)[i].base
  {
    if more == [] {
      assert src + more == src;
    } else {
      var front := more[..|more| - 1];
      SelectExtends(src, front, tomb);
      assert (src + more)[..|src + more| - 1] == src + front;
    }
  }

  /** A table row is determined by its base. */
  lemma SameBaseSameRow(rows: seq<Row>, r: Row, q: Row)
    requires DistinctBases(rows) && r in rows && q in rows && r.base == q.base
    ensures r == q
  {
  }

  /** Under agreement the row selected at a disk position has the uid of the disk row. */
  lemma SelectedDiskUid(v: seq<Row>, disk: Table, tomb: set<string>, i: nat)
    requires Sound(disk) && OverridesAgree(v, disk, tomb)
    requires i < |Select(disk.rows, tomb)|
    ensures i < |Select(disk.rows + v, tomb)|
    ensures Select(disk.rows + v, tomb)[i].uid == Select(disk.rows, tomb)[i].uid
  {
    var src := disk.rows + v;
    SelectExtends(disk.rows, v, tomb);
    SelectFromSource(disk.rows, tomb);
    var d := Select(disk.rows, tomb)[i];
    assert d in Select(disk.rows, tomb);
    var j :| 0 <= j < |disk.rows| && disk.rows[j] == d;
    var k := SelectedRowWins(src, tomb, i);
    if k < |disk.rows| {
      SameBaseSameRow(disk.rows, src[k], d);
    } else {
      assert src[j] == d && src[k] == v[k - |disk.rows|];
      assert src[k] in v;
    }
  }

  /** The uids at disk positions are pairwise distinct before resolution. */
  lemma SelectedDiskUidsDistinct(v: seq<Row>, disk: Table, tomb: set<string>, i: nat)
    requires Sound(disk) && OverridesAgree(v, disk, tomb)
    requires i < |Select(disk.rows, tomb)|
    ensures i < |Select(disk.rows + v, tomb)|
    ensures Select(disk.rows + v, tomb)[i].uid !in Uids(Select(disk.rows + v, tomb)[..i])
  {
    var s0, s1 := Select(disk.rows, tomb), Select(disk.rows + v, tomb);
    SelectedDiskUid(v, disk, tomb, i);
    SelectBases(disk.rows, tomb);
    SelectFromSource(disk.rows, tomb);
    assert s0[i] in s0;
    forall j | 0 <= j < i ensures s1[j].uid != s1[i].uid {
      SelectedDiskUid(v, disk, tomb, j);
      assert s0[j] in s0;
      if s0[j].uid == s0[i].uid {
        SameUidSameRow(disk.rows, s0[j], s0[i]);
      }
    }
  }

  lemma SameUidSameRow(rows: seq<Row>, r: Row, q: Row)
    requires DistinctUids(rows) && r in rows && q in rows && r.uid == q.uid
    ensures r == q
  {
  }

  /** A save keeps the uid of every surviving row on disk exactly when the
      overriding rows in memory agree with the disk on the uid. */
  lemma DiskUidsStableIff(uidvalidity: u32, uidnext: u32, v: seq<Row>, disk: Table, tomb: set<string>)
    requires SameGeneration(uidvalidity, disk) && Sound(disk) && DistinctBases(v)
    requires HasRoom(uidvalidity, uidnext, v, Some(disk), tomb)
    ensures KeepsDiskUids(disk, tomb, Merge(uidvalidity, uidnext, v, Some(disk), tomb))
            <==> OverridesAgree(v, disk, tomb)
  {
    var out := Merge(uidvalidity, uidnext, v, Some(disk), tomb);
    if OverridesAgree(v, disk, tomb) {
      forall d | d in disk.rows && d.base !in tomb ensures UidOf(out.rows, d.base) == d.uid {
        DiskUidStable(uidvalidity, uidnext, v, disk, tomb, d);
      }
    } else {
      var r, d :| r in v && d in disk.rows && Eligible(r, tomb) && r.base == d.base && r.modseq > d.modseq
                  && r.uid != d.uid;
      DisagreeingOverrideChangesUid(uidvalidity, uidnext, v, disk, tomb, r, d);
    }
  }

  lemma DiskUidStable(uidvalidity: u32, uidnext: u32, v: seq<Row>, disk: Table, tomb: set<string>, d: Row)
    requires SameGeneration(uidvalidity, disk) && Sound(disk)
    requires HasRoom(uidvalidity, uidnext, v, Some(disk), tomb)
    requires OverridesAgree(v, disk, tomb)
    requires d in disk.rows && d.base !in tomb
    ensures UidOf(Merge(uidvalidity, uidnext, v, Some(disk), tomb).rows, d.base) == d.uid
  {
    var s0, s1 := Select(disk.rows, tomb), Select(disk.rows + v, tomb);
    var out := Merge(uidvalidity, uidnext, v, Some(disk), tomb);
    SelectBases(disk.rows, tomb);
    assert d.base in Bases(disk.rows) && Eligible(d, tomb);
    var i := BaseIndex(s0, d.base);
    SelectFromSource(disk.rows, tomb);
    assert s0[i] in s0;
    SameBaseSameRow(disk.rows, s0[i], d);
    SelectedDiskUid(v, disk, tomb, i);
    SelectedDiskUidsDistinct(v, disk, tomb, i);
    SelectFromSource(disk.rows + v, tomb);
    ResolveSoundIff(s1, StartNext(uidnext, Some(disk)));
    assert out.rows[i] == s1[i];
    SelectExtends(disk.rows, v, tomb);
    MergeIsSound(uidvalidity, uidnext, v, Some(disk), tomb);
    UidOfMeaning(out.rows, d.base);
    assert out.rows[i] in out.rows;
  }

  lemma DisagreeingOverrideChangesUid(uidvalidity: u32, uidnext: u32, v: seq<Row>, disk: Table, tomb: set<string>,
                                      r: Row, d: Row)
    requires SameGeneration(uidvalidity, disk) && Sound(disk) && DistinctBases(v)
    requires HasRoom(uidvalidity, uidnext, v, Some(disk), tomb)
    requires r in v && d in disk.rows && Eligible(r, tomb) && r.base == d.base && r.modseq > d.modseq
    requires r.uid != d.uid
    ensures UidOf(Merge(uidvalidity, uidnext, v, Some(disk), tomb).rows, d.base) != d.uid
  {
    var s1 := Select(disk.rows + v, tomb);
    var out := Merge(uidvalidity, uidnext, v, Some(disk), tomb);
    var m :| 0 <= m < |v| && v[m] == r;
    var k :| 0 <= k < |disk.rows| && disk.rows[k] == d;
    MergePicksHigherModseq(uidvalidity, v, disk, tomb, k, m);
    var i :| 0 <= i < |s1| && s1[i] == r;
    SelectFromSource(disk.rows + v, tomb);
    ResolveSoundIff(s1, StartNext(uidnext, Some(disk)));
    MergeIsSound(uidvalidity, uidnext, v, Some(disk), tomb);
    hide Select, Resolve, Eligible, Uidlist.Collisions, Uids, Bases, DistinctBases, DistinctUids;
    UidOfMeaning(out.rows, d.base);
    assert out.rows[i] in out.rows;
  }

  /** Only rows that are in memory alone can be re-minted, and what they get is
      at least both uidnext values. */
  lemma OnlyNewRowsReminted(uidvalidity: u32, uidnext: u32, v: seq<Row>, disk: Table, tomb: set<string>, i: nat)
    requires SameGeneration(uidvalidity, disk) && Sound(disk)
    requires HasRoom(uidvalidity, uidnext, v, Some(disk), tomb)
    requires OverridesAgree(v, disk, tomb)
    requires i < |Selected(uidvalidity, v, Some(disk), tomb)|
    ensures var sel := Selected(uidvalidity, v, Some(disk), tomb);
            var out := Merge(uidvalidity, uidnext, v, Some(disk), tomb);
            out.rows[i] != sel[i] ==>
              && out.rows[i].base == sel[i].base && out.rows[i].mid == sel[i].mid
              && sel[i].base !in Bases(disk.rows)
              && out.rows[i].uid >= uidnext && out.rows[i].uid >= disk.uidnext
  {
    var s1 := Select(disk.rows + v, tomb);
    var out := Merge(uidvalidity, uidnext, v, Some(disk), tomb);
    SelectFromSource(disk.rows + v, tomb);
    ResolveSoundIff(s1, StartNext(uidnext, Some(disk)));
    if s1[i].base in Bases(disk.rows) {
      assert s1[i] in s1;
      DiskPosition(v, disk, tomb, i);
      SelectedDiskUidsDistinct(v, disk, tomb, i);
    }
  }

  /** A selected row whose base is on disk sits at a disk position. */
  lemma DiskPosition(v: seq<Row>, disk: Table, tomb: set<string>, i: nat)
    requires Sound(disk) && i < |Select(disk.rows + v, tomb)|
    requires Select(disk.rows + v, tomb)[i].base in Bases(disk.rows)
    ensures i < |Select(disk.rows, tomb)|
  {
    var s1 := Select(disk.rows + v, tomb);
    SelectFromSource(disk.rows + v, tomb);
    assert s1[i] in s1;
    var k := BaseIndex(disk.rows, s1[i].base);
    assert disk.rows[k] in disk.rows && Eligible(disk.rows[k], tomb);
    SelectBases(disk.rows, tomb);
    var j := BaseIndex(Select(disk.rows, tomb), s1[i].base);
    SelectExtends(disk.rows, v, tomb);
    SelectBases(disk.rows + v, tomb);
    assert s1[j].base == s1[i].base;
  }

  /** An undeleted row on disk has that uid. */
  ghost predicate TakenOnDisk(disk: Table, tomb: set<string>, uid: u32) {
    exists d :: d in disk.rows && d.base !in tomb && d.uid == uid
  }

  /** A row that is in memory alone is published under its base and Message-ID. It
      keeps uid and modseq, where uids in memory are distinct, if and only if no
      undeleted row on disk has its uid; otherwise it gets a new uid of at least
      both uidnext values. */
  lemma NewRowIsPublished(uidvalidity: u32, uidnext: u32, v: seq<Row>, disk: Table, tomb: set<string>, r: Row)
    requires SameGeneration(uidvalidity, disk) && Sound(disk) && DistinctBases(v)
    requires HasRoom(uidvalidity, uidnext, v, Some(disk), tomb) && OverridesAgree(v, disk, tomb)
    requires r in v && Eligible(r, tomb) && r.base !in Bases(disk.rows)
    ensures var out := Merge(uidvalidity, uidnext, v, Some(disk), tomb).rows;
            && r.base in Bases(out)
            && (forall q :: q in out && q.base == r.base ==>
                  q.mid == r.mid && (q == r || (q.uid >= uidnext && q.uid >= disk.uidnext)))
            && (DistinctUids(v) ==> (r in out <==> !TakenOnDisk(disk, tomb, r.uid)))
  {
    hide Merge, Select, Resolve, OverridesAgree, HasRoom, TakenOnDisk, Eligible, DistinctUids;
    MergeIsSound(uidvalidity, uidnext, v, Some(disk), tomb);
    var i, q := NewRowResolved(uidvalidity, uidnext, v, disk, tomb, r);
    var out := Merge(uidvalidity, uidnext, v, Some(disk), tomb).rows;
    if DistinctUids(v) { NewUidTakenIff(v, disk, tomb, r, i); }
    forall p | p in out && p.base == r.base ensures p == q {
      SameBaseSameRow(out, p, q);
    }
  }

  /** What resolution makes of it. */
  lemma NewRowResolved(uidvalidity: u32, uidnext: u32, v: seq<Row>, disk: Table, tomb: set<string>, r: Row)
    returns (i: nat, q: Row)
    requires SameGeneration(uidvalidity, disk) && Sound(disk) && DistinctBases(v)
    requires HasRoom(uidvalidity, uidnext, v, Some(disk), tomb) && OverridesAgree(v, disk, tomb)
    requires r in v && Eligible(r, tomb) && r.base !in Bases(disk.rows)
    ensures |Select(disk.rows, tomb)| <= i < |Select(disk.rows + v, tomb)|
    ensures Select(disk.rows + v, tomb)[i] == r
    ensures q in Merge(uidvalidity, uidnext, v, Some(disk), tomb).rows && q.base == r.base && q.mid == r.mid
    ensures q == r || (q.uid >= uidnext && q.uid >= disk.uidnext)
    ensures q == r <==> r.uid !in Uids(Select(disk.rows + v, tomb)[..i])
  {
    var s1 := Select(disk.rows + v, tomb);
    i := NewRowPosition(v, disk, tomb, r);
    assert Selected(uidvalidity, v, Some(disk), tomb) == s1;
    OnlyNewRowsReminted(uidvalidity, uidnext, v, disk, tomb, i);
    q := RowAtPosition(uidvalidity, uidnext, v, disk, tomb, i);
  }

  /** Row by row, what a save publishes. */
  lemma RowAtPosition(uidvalidity: u32, uidnext: u32, v: seq<Row>, disk: Table, tomb: set<string>, i: nat)
    returns (q: Row)
    requires SameGeneration(uidvalidity, disk) && HasRoom(uidvalidity, uidnext, v, Some(disk), tomb)
    requires i < |Select(disk.rows + v, tomb)|
    ensures var s1, out := Select(disk.rows + v, tomb), Merge(uidvalidity, uidnext, v, Some(disk), tomb).rows;
            && i < |out| && q == out[i] && q in out && q.base == s1[i].base && q.mid == s1[i].mid
            && (q == s1[i] <==> s1[i].uid !in Uids(s1[..i]))
  {
    var s1, un := Select(disk.rows + v, tomb), StartNext(uidnext, Some(disk));
    SelectFromSource(disk.rows + v, tomb);
    ResolveSoundIff(s1, un);
    q := Merge(uidvalidity, uidnext, v, Some(disk), tomb).rows[i];
    hide Select, Resolve;
    assert s1[i] in s1;
    assert ResolvedRow(s1, i, q, Top(un, s1));
  }

  /** It is selected, behind the rows of the disk. */
  lemma NewRowPosition(v: seq<Row>, disk: Table, tomb: set<string>, r: Row) returns (i: nat)
    requires DistinctBases(v) && r in v && Eligible(r, tomb) && r.base !in Bases(disk.rows)
    ensures |Select(disk.rows, tomb)| <= i < |Select(disk.rows + v, tomb)|
    ensures Select(disk.rows + v, tomb)[i] == r
  {
    var src := disk.rows + v;
    var m :| 0 <= m < |v| && v[m] == r;
    assert src[|disk.rows| + m] == r;
    forall j | 0 <= j < |src| && j != |disk.rows| + m ensures src[j].base != r.base {
      if j < |disk.rows| { assert src[j] in disk.rows; } else { assert src[j] == v[j - |disk.rows|]; }
    }
    assert Wins(src, |disk.rows| + m, tomb);
    WinnerIsSelected(src, tomb, |disk.rows| + m);
    i :| 0 <= i < |Select(src, tomb)| && Select(src, tomb)[i] == r;
    SelectExtends(disk.rows, v, tomb);
    SelectFromSource(disk.rows, tomb);
    forall j | 0 <= j < |Select(disk.rows, tomb)| ensures Select(disk.rows, tomb)[j].base in Bases(disk.rows) {
      assert Select(disk.rows, tomb)[j] in Select(disk.rows, tomb);
    }
  }

  lemma NewUidTakenIff(v: seq<Row>, disk: Table, tomb: set<string>, r: Row, i: nat)
    requires Sound(disk) && OverridesAgree(v, disk, tomb) && DistinctUids(v) && r in v
    requires |Select(disk.rows, tomb)| <= i < |Select(disk.rows + v, tomb)| && Select(disk.rows + v, tomb)[i] == r
    ensures r.uid in Uids(Select(disk.rows + v, tomb)[..i]) <==> TakenOnDisk(disk, tomb, r.uid)
  {
    var s0, s1 := Select(disk.rows, tomb), Select(disk.rows + v, tomb);
    SelectFromSource(disk.rows + v, tomb);
    SelectBases(disk.rows + v, tomb);
    if r.uid in Uids(s1[..i]) {
      var j :| 0 <= j < i && s1[j].uid == r.uid;
      var q := s1[j];
      assert q in s1 && q.base != r.base;
      if q !in disk.rows {
        SameUidSameRow(v, q, r);
      }
    }
    if TakenOnDisk(disk, tomb, r.uid) {
      var d :| d in disk.rows && d.base !in tomb && d.uid == r.uid;
      SelectBases(disk.rows, tomb);
      assert d.base in Bases(disk.rows) && Eligible(d, tomb);
      var j := BaseIndex(s0, d.base);
      SelectFromSource(disk.rows, tomb);
      assert s0[j] in s0;
      SameBaseSameRow(disk.rows, s0[j], d);
      SelectedDiskUid(v, disk, tomb, j);
      assert s1[..i][j] in s1[..i];
    }
  }

  /** Without agreement a published uid does change: memory holds "b" under the
      uid of "a" with a higher modseq, and the save gives "b" another uid than
      the file had. */
  lemma UnstableUidExample(disk: Table, v: seq<Row>)
    requires disk == Table(7, 3, [Row("a", 1, 2, ""), Row("b", 2, 3, "")])
    requires v == [Row("b", 1, 9, "")]
    ensures UidOf(disk.rows, "b") == 2
    ensures UidOf(Merge(7, 3, v, Some(disk), {}).rows, "b") != 2
  {
    var r, d := v[0], disk.rows[1];
    assert r in v && d in disk.rows && r.base == d.base == "b" && d.uid == 2;
    assert Sound(disk) by {
      assert forall q :: q in disk.rows ==> q == disk.rows[0] || q == d;
    }
    UidOfMeaning(disk.rows, "b");
    SmallSaveHasRoom(disk, v);
    DisagreeingOverrideChangesUid(7, 3, v, disk, {}, r, d);
  }

  lemma SmallSaveHasRoom(disk: Table, v: seq<Row>)
    requires disk.uidnext == 3 && |disk.rows| + |v| < 100
    requires forall r :: r in disk.rows + v ==> r.uid < 3
    ensures disk.uidvalidity == 7 ==> HasRoom(7, 3, v, Some(disk), {})
  {
    var src := disk.rows + v;
    SelectFromSource(src, {});
    RoomForFewRows(3, Select(src, {}), 3);
  }

  /** A snapshot that holds the largest uid leaves no room: what it publishes is
      not sound. */
  lemma ExhaustedCounterExample(v: seq<Row>)
    requires v == [Row("a", UINT32_MAX, 1, "")]
    ensures !Sound(Merge(7, 2, v, None, {}))
  {
    hide Merge, Resolve, Select, Selected, Sound;
    MergeIsSound(7, 2, v, None, {});
    AloneIsSelected(v);
    assert Top(StartNext(2, None), Selected(7, v, None, {})) > UINT32_MAX;
  }

  lemma AloneIsSelected(v: seq<Row>)
    requires |v| == 1 && Eligible(v[0], {})
    ensures v[0] in Selected(7, v, None, {})
  {
    assert Wins(v, 0, {});
    WinnerIsSelected(v, {}, 0);
    hide Select;
  }
}
