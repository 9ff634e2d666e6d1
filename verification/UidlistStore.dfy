/** The merge as the store runs it: over growing row arrays, with the base-name
    table and the uid set, proved to compute the specified merge. */
module UidlistStore {
  import opened Common
  import opened Uidlist
  import opened BaseHashes
  import opened Probing
  import opened UidSets

  /** The index takes each base name to the position of its row. */
  ghost predicate Indexes(idx: map<string, u32>, rows: seq<Row>) {
    && |idx| <= |rows|
    && (forall b :: b in idx ==> idx[b] < |rows| && rows[idx[b]].base == b)
    && (forall i :: 0 <= i < |rows| ==> rows[i].base in idx && idx[rows[i].base] == i)
  }

  lemma IndexFind(idx: map<string, u32>, rows: seq<Row>, base: string)
    requires Indexes(idx, rows)
    ensures Find(rows, base) == if base in idx then idx[base] else |rows|
    ensures |idx| <= |rows| && (base in idx ==> idx[base] < |rows| && rows[idx[base]].base == base)
  {
  }

  lemma IndexAppend(idx: map<string, u32>, rows: seq<Row>, r: Row)
    requires Indexes(idx, rows) && r.base !in idx && |rows| <= UINT32_MAX
    ensures Indexes(idx[r.base := |rows|], rows + [r])
  {
  }

  lemma IndexUpdate(idx: map<string, u32>, rows: seq<Row>, i: nat, r: Row)
    requires Indexes(idx, rows) && i < |rows| && rows[i].base == r.base
    ensures Indexes(idx, rows[i := r])
  {
  }

  /** The merged row array: grown by doubling from 16, rows overwritten in place. */
  class RowBuffer {
    ghost var Rows: seq<Row>
    var data: array<Row>
    var n: nat

    ghost predicate Valid()
      reads this, data
    {
      n <= data.Length && Rows == data[..n]
    }

    constructor ()
      ensures Valid() && Rows == [] && n == 0 && fresh(data)
    {
      data := new Row[0];
      n := 0;
      Rows := [];
    }

    method Append(r: Row)
      requires Valid()
      modifies this, data
      ensures Valid() && (data == old(data) || fresh(data))
      ensures Rows == old(Rows) + [r] && n == old(n) + 1
    {
      if n == data.Length {
        var blank := Row("", 0, 0, "");
        var nv := new Row[if n == 0 then 16 else 2 * n](_ => blank);
        for i := 0 to n
          invariant Valid() && data == old(data) && n == old(n) == data.Length && Rows == old(Rows)
          invariant nv[..i] == data[..i]
        {
          nv[i] := data[i];
        }
        data := nv;
        assert data[..n] == Rows;
      }
      data[n] := r;
      n := n + 1;
      Rows := Rows + [r];
    }

    method Overwrite(i: nat, r: Row)
      requires Valid() && i < n
      modifies this, data
      ensures Valid() && data == old(data) && n == old(n)
      ensures Rows == old(Rows)[i := r]
    {
      data[i] := r;
      Rows := Rows[i := r];
    }
  }

  /** tomb_add's list turned into a lookup table. */
  method TombTable(tomb: seq<string>) returns (h: BaseHash)
    requires |tomb| <= UINT32_MAX
    ensures h.Valid() && fresh(h) && fresh(h.key) && fresh(h.val)
    ensures h.Contents.Keys == set b | b in tomb
  {
    hide BaseHash.Valid, PowerOfTwo;
    h := new BaseHash(|tomb|);
    for i := 0 to |tomb|
      invariant h.Valid() && fresh(h) && fresh(h.key) && fresh(h.val)
      invariant h.Contents.Keys == set b | b in tomb[..i]
      invariant |h.Contents| <= i && |tomb| < h.key.Length
    {
      assert tomb[..i + 1] == tomb[..i] + [tomb[i]];
      h.Put(tomb[i], i);
    }
    assert tomb[..|tomb|] == tomb;
  }

  /** One turn of the selection loop. */
  method AbsorbRow(mv: RowBuffer, idx: BaseHash, tomb: BaseHash, r: Row)
    requires mv.Valid() && idx.Valid() && tomb.Valid()
    requires mv.n < UINT32_MAX && mv.n + 1 < idx.key.Length
    requires Indexes(idx.Contents, mv.Rows)
    requires idx != tomb && idx.key != tomb.key && idx.val != tomb.val
    modifies mv, mv.data, idx, idx.key, idx.val
    ensures mv.Valid() && (mv.data == old(mv.data) || fresh(mv.data)) && mv.n <= old(mv.n) + 1
    ensures mv.Rows == Absorb(old(mv.Rows), r, tomb.Contents.Keys)
    ensures idx.Valid() && Indexes(idx.Contents, mv.Rows)
  {
    hide BaseHash.Valid, Indexes;
    if r.base == "" || r.uid == 0 { return; }
    var dead := tomb.Get(r.base);
    if dead.Some? { return; }
    var at := idx.Get(r.base);
    IndexFind(idx.Contents, mv.Rows, r.base);
    if at.Some? {
      if r.modseq <= mv.data[at.value].modseq { return; }
      IndexUpdate(idx.Contents, mv.Rows, at.value, r);
      mv.Overwrite(at.value, r);
    } else {
      IndexAppend(idx.Contents, mv.Rows, r);
      idx.Put(r.base, mv.n);
      mv.Append(r);
    }
  }

  /** The selection loop. */
  method SelectRows(src: seq<Row>, tomb: BaseHash) returns (mv: RowBuffer)
    requires |src| <= UINT32_MAX && tomb.Valid()
    ensures fresh(mv) && fresh(mv.data) && mv.Valid() && mv.Rows == Select(src, tomb.Contents.Keys)
  {
    hide BaseHash.Valid, RowBuffer.Valid, PowerOfTwo, Absorb;
    var idx := new BaseHash(|src|);
    mv := new RowBuffer();
    for i := 0 to |src|
      invariant fresh(mv) && fresh(mv.data) && fresh(idx) && fresh(idx.key) && fresh(idx.val)
      invariant mv.Valid() && idx.Valid()
      invariant mv.n <= i && |src| < idx.key.Length
      invariant mv.Rows == Select(src[..i], tomb.Contents.Keys)
      invariant Indexes(idx.Contents, mv.Rows)
    {
      assert src[..i + 1][..i] == src[..i];
      AbsorbRow(mv, idx, tomb, src[i]);
    }
    assert src[..|src|] == src;
  }

  /** One turn of the second uid loop. */
  method ResolveRow(us: UidSet, r: Row, un: u32) returns (q: Row, next: u32)
    requires us.Valid() && r.uid != 0 && |us.Contents| + 1 < us.slot.Length
    modifies us, us.slot
    ensures us.Valid() && us.Contents == old(us.Contents) + {q.uid} && q.uid != 0
    ensures (q, next) == if r.uid !in old(us.Contents) then (r, un)
                         else (r.(uid := Mint(un).0, modseq := Mint(un).1), Mint(un).1)
  {
    hide UidSet.Valid;
    var isNew := us.Add(r.uid);
    if isNew { return r, un; }
    var uid := un;
    next := Add32(un, 1);
    if uid == 0 {
      uid := next;
      next := Add32(next, 1);
    }
    q := r.(uid := uid, modseq := next);
    assert us.Contents == old(us.Contents);
    var _ := us.Add(uid);
  }

  /** The first uid loop: raise the counter above every uid. */
  method RaiseNext(mv: RowBuffer, start: u32) returns (un: u32)
    requires mv.Valid()
    ensures un == Lift(start, mv.Rows)
  {
    un := start;
    for i := 0 to mv.n
      invariant un == Lift(start, mv.Rows[..i])
    {
      assert mv.Rows[..i + 1][..i] == mv.Rows[..i];
      if mv.data[i].uid >= un { un := Add32(mv.data[i].uid, 1); }
    }
    assert mv.Rows[..mv.n] == mv.Rows;
  }

  lemma PrefixGrows<T>(done: seq<T>, rows: seq<T>, i: nat, q: T)
    requires i == |done| && i < |rows|
    ensures (done + rows[i..])[i := q] == (done + [q]) + rows[i + 1..]
  {
  }

  /** What one turn adds to the resolved prefix. */
  lemma ResolveStep(rows: seq<Row>, i: nat, start: u32, q: Row, un: u32)
    requires i < |rows|
    requires var p := Resolve(rows[..i], start);
             (q, un) == if rows[i].uid !in Uids(p.0) then (rows[i], p.1)
                        else (rows[i].(uid := Mint(p.1).0, modseq := Mint(p.1).1), Mint(p.1).1)
    ensures Resolve(rows[..i + 1], start) == (Resolve(rows[..i], start).0 + [q], un)
    ensures Uids(Resolve(rows[..i + 1], start).0) == Uids(Resolve(rows[..i], start).0) + {q.uid}
  {
    assert rows[..i + 1][..i] == rows[..i];
    UidsAppend(Resolve(rows[..i], start).0, q);
  }

  /** The second uid loop, in place. */
  method ResolveInPlace(mv: RowBuffer, start: u32) returns (un: u32)
    requires mv.Valid() && forall r :: r in mv.Rows ==> r.uid != 0
    modifies mv, mv.data
    ensures mv.Valid() && (mv.Rows, un) == Resolve(old(mv.Rows), start)
  {
    hide UidSet.Valid, PowerOfTwo, Resolve, Uids;
    ghost var rows, done := mv.Rows, [];
    un := start;
    ResolveNext(rows[..0], start);
    UidsNone();
    var us := new UidSet(mv.n + 8);
    for i := 0 to mv.n
      invariant fresh(us) && fresh(us.slot) && us.Valid()
      invariant mv.Valid() && mv.data == old(mv.data) && mv.n == |rows| < us.slot.Length
      invariant |us.Contents| <= i == |done|
      invariant (done, un) == Resolve(rows[..i], start)
      invariant us.Contents == Uids(done)
      invariant mv.Rows == done + rows[i..]
    {
      assert mv.data[i] == mv.Rows[i] == rows[i];
      var q;
      q, un := ResolveRow(us, mv.data[i], un);
      ResolveStep(rows, i, start, q, un);
      mv.Overwrite(i, q);
      PrefixGrows(done, rows, i, q);
      done := done + [q];
    }
    assert rows[..|rows|] == rows && done + [] == done;
  }

  /** uidlist_merge: the rows of the memory snapshot `v` and of the table on
      disk, under the tombstones of the saving session. */
  method MergeTables(tomb: seq<string>, uidvalidity: u32, uidnext: u32, v: seq<Row>, disk: Option<Table>)
    returns (out: Table)
    requires |tomb| <= UINT32_MAX
    requires |v| + (if disk.Some? then |disk.value.rows| else 0) <= UINT32_MAX
    ensures out == Merge(uidvalidity, uidnext, v, disk, set b | b in tomb)
  {
    hide Select, Resolve, Lift, BaseHash.Valid;
    var duv, dun, dv := 0, 1, [];
    if disk.Some? {
      duv, dun, dv := disk.value.uidvalidity, disk.value.uidnext, disk.value.rows;
    }
    if dun == 0 { dun := 1; }
    var mem := v;
    var uv := if uidvalidity != 0 then uidvalidity else duv;
    var un := if uidnext > dun then uidnext else dun;
    if duv != 0 && uidvalidity != 0 && duv != uidvalidity {
      if duv > uidvalidity {
        uv := duv;
        mem := [];
      } else {
        uv := uidvalidity;
        dv := [];
      }
    }
    var dead := TombTable(tomb);
    assert dv + mem == Sources(uidvalidity, v, disk);
    SelectFromSource(dv + mem, dead.Contents.Keys);
    var mv := SelectRows(dv + mem, dead);
    un := RaiseNext(mv, un);
    un := ResolveInPlace(mv, un);
    out := Table(uv, un, mv.data[..mv.n]);
  }

  /** The probe of imapd_uidlist_save: the uid the written rows hold for `base`. */
  method ProbeUid(rows: seq<Row>, base: string) returns (uid: u32)
    ensures uid == UidOf(rows, base)
  {
    uid := 0;
    for i := 0 to |rows|
      invariant UidOf(rows, base) == UidOf(rows[i..], base)
    {
      if rows[i].base == base { return rows[i].uid; }
      assert rows[i..][1..] == rows[i + 1..];
    }
  }
}
