/** Linear probing, as both hand-written tables of the mail store use it: an
    element is stored at the first free slot reached from its home slot by
    stepping by one, around the end of the array. */
module Probing {
  import opened Common

  /** Slot `t` is passed when walking from `a` up to but excluding `b`. */
  predicate Passed(a: int, t: int, b: int) {
    if a <= b then a <= t < b else a <= t || t < b
  }

  /** Number of single steps from slot `a` to slot `b` in a table of `n` slots. */
  function Steps(a: nat, b: nat, n: nat): nat
    requires a < n && b < n
  {
    if a <= b then b - a else b + n - a
  }

  function Next(i: nat, n: nat): nat
    requires i < n
  {
    if i + 1 == n then 0 else i + 1
  }

  predicate PowerOfTwo(n: nat) {
    n == 1 || (n > 1 && n % 2 == 0 && PowerOfTwo(n / 2))
  }

  /** No key sits in two slots. */
  ghost predicate NoRepeat<K>(s: seq<Option<K>>) {
    forall i, j :: 0 <= i < j < |s| && s[i].Some? && s[j].Some? ==> s[i] != s[j]
  }

  /** Every stored key can be reached from its home slot over occupied slots. */
  ghost predicate WellPlaced<K>(s: seq<Option<K>>, home: K -> nat) {
    forall i, t ::
      0 <= i < |s| && 0 <= t < |s| && s[i].Some? && Passed(home(s[i].value), t, i) ==> s[t].Some?
  }

  ghost predicate Holds<K>(s: seq<Option<K>>, k: K) {
    exists i :: 0 <= i < |s| && s[i] == Some(k)
  }

  /** The probe for `k` that started at slot `a` went over occupied slots, none of them holding `k`. */
  ghost predicate Probed<K>(s: seq<Option<K>>, a: nat, k: K, i: nat) {
    forall t :: 0 <= t < |s| && Passed(a, t, i) ==> s[t].Some? && s[t] != Some(k)
  }

  /** One more probe step past an occupied slot of another key; it brings any free slot closer. */
  lemma ProbeStep<K>(s: seq<Option<K>>, a: nat, k: K, i: nat, free: nat)
    requires a < |s| && i < |s| && free < |s|
    requires Probed(s, a, k, i) && s[i].Some? && s[i] != Some(k) && s[free].None?
    ensures Probed(s, a, k, Next(i, |s|))
    ensures Steps(Next(i, |s|), free, |s|) < Steps(i, free, |s|)
  {
  }

  /** A probe that reaches a free slot without meeting the key proves that the key is absent. */
  lemma FreeSlotProvesAbsence<K>(s: seq<Option<K>>, home: K -> nat, k: K, j: nat)
    requires WellPlaced(s, home)
    requires j < |s| && home(k) < |s| && s[j].None?
    requires Probed(s, home(k), k, j)
    ensures !Holds(s, k)
  {
    if i :| 0 <= i < |s| && s[i] == Some(k) {
      assert false;
    }
  }

  /** Writing an absent key into the free slot its probe stopped at keeps the table searchable. */
  lemma InsertKeepsPlacement<K>(s: seq<Option<K>>, home: K -> nat, k: K, j: nat)
    requires WellPlaced(s, home) && NoRepeat(s) && !Holds(s, k)
    requires j < |s| && s[j].None?
    requires Probed(s, home(k), k, j)
    ensures WellPlaced(s[j := Some(k)], home) && NoRepeat(s[j := Some(k)])
  {
    var r := s[j := Some(k)];
    forall i, t | 0 <= i < |r| && 0 <= t < |r| && r[i].Some? && Passed(home(r[i].value), t, i)
      ensures r[t].Some?
    {
      assert i != j ==> r[i] == s[i];
    }
    assert forall i :: 0 <= i < |r| && i != j ==> r[i] == s[i] && r[i] != Some(k);
  }

  /** A table holding fewer keys than slots has a free slot, so every probe stops. */
  lemma FreeSlotExists<K>(s: seq<Option<K>>, keys: set<K>) returns (e: nat)
    requires NoRepeat(s) && |keys| < |s|
    requires forall i :: 0 <= i < |s| && s[i].Some? ==> s[i].value in keys
    ensures e < |s| && s[e].None?
  {
    if forall i :: 0 <= i < |s| ==> s[i].Some? {
      var vs := seq(|s|, i requires 0 <= i < |s| => s[i].value);
      assert Distinct(vs) by {
        assert forall i :: 0 <= i < |s| ==> s[i] == Some(vs[i]);
      }
      DistinctCardinality(vs);
      Cardinality((set x | x in vs), keys);
      assert false;
    }
    e :| 0 <= e < |s| && s[e].None?;
  }

  lemma {:induction false} Cardinality<T>(a: set<T>, b: set<T>)
    requires a <= b
    ensures |a| <= |b|
  {
    assert b == a + (b - a);
  }
}

/** The base-name index of the uidlist: an open-addressed table from maildir
    base names to 32-bit values, never resized. */
module BaseHashes {
  import opened Common
  import opened Probing

  /** FNV-1a over the bytes of the base name. */
  function Fnv1a(s: string): bv32 {
    if s == [] then 2166136261
    else (Fnv1a(s[..|s| - 1]) ^ ((s[|s| - 1] as int % 256) as bv32)) * 16777619
  }

  /** Masking with `cap - 1` is the remainder by `cap`, a power of two. */
  function Home(s: string, cap: nat): (r: nat)
    requires cap > 0
    ensures r < cap
  {
    Fnv1a(s) as int % cap
  }

  ghost function HomeOf(cap: nat): string -> nat {
    (s: string) => if cap > 0 then Home(s, cap) else 0
  }

  /** The slots hold exactly the bindings of `m`, each reachable from its home. */
  ghost predicate Represents(key: seq<Option<string>>, val: seq<u32>, m: map<string, u32>) {
    && |m| < |key| == |val|
    && NoRepeat(key)
    && WellPlaced(key, HomeOf(|key|))
    && (forall i :: 0 <= i < |key| && key[i].Some? ==> key[i].value in m && m[key[i].value] == val[i])
    && (forall k :: k in m ==> Holds(key, k))
  }

  /** A new value in the slot of its key. */
  lemma ReplaceRepresents(key: seq<Option<string>>, val: seq<u32>, m: map<string, u32>, base: string, v: u32, i: nat)
    requires Represents(key, val, m) && i < |key| && key[i] == Some(base)
    ensures Represents(key[i := Some(base)], val[i := v], m[base := v])
  {
    assert key[i := Some(base)] == key;
    hide WellPlaced, Holds;
    assert forall j :: 0 <= j < |key| && j != i && key[j].Some? ==> key[j] != key[i];
    hide NoRepeat;
  }

  /** An absent key in the free slot its probe stopped at. */
  lemma AddRepresents(key: seq<Option<string>>, val: seq<u32>, m: map<string, u32>, base: string, v: u32, i: nat)
    requires Represents(key, val, m) && base !in m && |m| + 1 < |key|
    requires i < |key| && key[i] == None && Probed(key, HomeOf(|key|)(base), base, i)
    ensures Represents(key[i := Some(base)], val[i := v], m[base := v])
  {
    var t := key[i := Some(base)];
    assert !Holds(key, base);
    InsertKeepsPlacement(key, HomeOf(|key|), base, i);
    hide WellPlaced, NoRepeat, Probed;
    forall k | k in m[base := v] ensures Holds(t, k) {
      if k == base {
        assert t[i] == Some(k);
      } else {
        var j :| 0 <= j < |key| && key[j] == Some(k);
        assert t[j] == Some(k);
      }
    }
  }

  class BaseHash {
    ghost var Contents: map<string, u32>
    const key: array<Option<string>>
    const val: array<u32>

    ghost predicate Valid()
      reads this, key, val
    {
      key.Length >= 16 && Represents(key[..], val[..], Contents)
    }

    /** bh_init: the least 16 * 2^j slots holding `n` keys at half load. */
    constructor (n: nat)
      ensures Valid() && Contents == map[] && fresh(key) && fresh(val)
      ensures n < key.Length && PowerOfTwo(key.Length)
    {
      var cap := 16;
      assert PowerOfTwo(16) by { assert PowerOfTwo(4); }
      while cap < n * 2
        invariant cap >= 16 && PowerOfTwo(cap)
      {
        cap := cap * 2;
      }
      key := new Option<string>[cap](_ => None);
      val := new u32[cap](_ => 0);
      Contents := map[];
    }

    /** The probe loop of both bh_put and bh_get: stops at the slot of `base`,
        or at the free slot that proves `base` absent. */
    method Probe(base: string) returns (i: nat)
      requires Valid()
      ensures i < key.Length
      ensures key[i].Some? ==> key[i] == Some(base)
      ensures key[i].None? ==>
                base !in Contents && Probed(key[..], HomeOf(key.Length)(base), base, i)
    {
      ghost var s := key[..];
      ghost var free := FreeSlotExists(s, Contents.Keys);
      i := Home(base, key.Length);
      ghost var start := i;
      while key[i].Some?
        invariant i < key.Length
        invariant Probed(s, start, base, i)
        decreases Steps(i, free, key.Length)
      {
        if key[i].value == base { return; }
        ProbeStep(s, start, base, i, free);
        i := Next(i, key.Length);
      }
      FreeSlotProvesAbsence(s, HomeOf(key.Length), base, i);
    }

    /** bh_put: a table with room for one more key takes the binding. */
    method Put(base: string, v: u32)
      requires Valid()
      requires base !in Contents ==> |Contents| + 1 < key.Length
      modifies this, key, val
      ensures Valid() && Contents == old(Contents)[base := v]
    {
      var i := Probe(base);
      ghost var s, t, m := key[..], val[..], Contents;
      if key[i].Some? {
        ReplaceRepresents(s, t, m, base, v, i);
      } else {
        AddRepresents(s, t, m, base, v, i);
        key[i] := Some(base);
      }
      hide Represents;
      val[i] := v;
      Contents := Contents[base := v];
      assert key[..] == s[i := Some(base)] && val[..] == t[i := v];
    }

    /** bh_get: the last value put, or absence. */
    method Get(base: string) returns (r: Option<u32>)
      requires Valid()
      ensures r == if base in Contents then Some(Contents[base]) else None
    {
      var i := Probe(base);
      r := if key[i].Some? then Some(val[i]) else None;
    }
  }
}

/** The set of uids already given out in a merge: open-addressed, 0 marks a free slot. */
module UidSets {
  import opened Common
  import opened Probing

  function Home(uid: u32, cap: nat): (r: nat)
    requires cap > 0
    ensures r < cap
  {
    uid * 2654435761 % 0x1_0000_0000 % cap
  }

  ghost function HomeOf(cap: nat): u32 -> nat {
    (u: u32) => if cap > 0 then Home(u, cap) else 0
  }

  ghost function View(slot: seq<u32>): (s: seq<Option<u32>>)
    ensures |s| == |slot|
  {
    seq(|slot|, i requires 0 <= i < |slot| => if slot[i] == 0 then None else Some(slot[i]))
  }

  /** The slots hold exactly the uids of `m`, each reachable from its home. */
  ghost predicate Represents(slot: seq<u32>, m: set<u32>) {
    && |m| < |slot| && 0 !in m
    && NoRepeat(View(slot))
    && WellPlaced(View(slot), HomeOf(|slot|))
    && (forall i :: 0 <= i < |slot| && slot[i] != 0 ==> slot[i] in m)
    && (forall u :: u in m ==> Holds(View(slot), u))
  }

  /** Writing an absent uid into the free slot its probe stopped at. */
  lemma AddRepresents(slot: seq<u32>, m: set<u32>, uid: u32, i: nat)
    requires Represents(slot, m) && uid != 0 && uid !in m && |m| + 1 < |slot|
    requires i < |slot| && slot[i] == 0 && !Holds(View(slot), uid) && Probed(View(slot), HomeOf(|slot|)(uid), uid, i)
    ensures Represents(slot[i := uid], m + {uid})
  {
    var s, t := View(slot), View(slot[i := uid]);
    InsertKeepsPlacement(s, HomeOf(|slot|), uid, i);
    assert t == s[i := Some(uid)];
    hide WellPlaced, NoRepeat, Probed;
    forall u | u in m + {uid} ensures Holds(t, u) {
      if u == uid {
        assert t[i] == Some(u);
      } else {
        var j :| 0 <= j < |s| && s[j] == Some(u);
        assert t[j] == Some(u);
      }
    }
  }

  class UidSet {
    ghost var Contents: set<u32>
    const slot: array<u32>

    ghost predicate Valid()
      reads this, slot
    {
      slot.Length >= 16 && Represents(slot[..], Contents)
    }

    /** us_init */
    constructor (n: nat)
      ensures Valid() && Contents == {} && fresh(slot)
      ensures n < slot.Length && PowerOfTwo(slot.Length)
    {
      var cap := 16;
      assert PowerOfTwo(16) by { assert PowerOfTwo(4); }
      while cap < n * 2
        invariant cap >= 16 && PowerOfTwo(cap)
      {
        cap := cap * 2;
      }
      slot := new u32[cap](_ => 0);
      Contents := {};
    }

    /** The probe loop of us_add: stops at the slot of `uid`, or at the free
        slot that proves `uid` absent. */
    method Probe(uid: u32) returns (i: nat)
      requires Valid() && uid != 0
      ensures i < slot.Length
      ensures slot[i] != 0 ==> slot[i] == uid
      ensures slot[i] == 0 ==> !Holds(View(slot[..]), uid) && Probed(View(slot[..]), HomeOf(slot.Length)(uid), uid, i)
    {
      ghost var s := View(slot[..]);
      ghost var free := FreeSlotExists(s, Contents);
      i := Home(uid, slot.Length);
      ghost var start := i;
      while slot[i] != 0
        invariant i < slot.Length
        invariant Probed(s, start, uid, i)
        decreases Steps(i, free, slot.Length)
      {
        if slot[i] == uid { return; }
        ProbeStep(s, start, uid, i, free);
        i := Next(i, slot.Length);
      }
      FreeSlotProvesAbsence(s, HomeOf(slot.Length), uid, i);
    }

    /** us_add: true exactly on the first insertion; 0 is never stored. */
    method Add(uid: u32) returns (added: bool)
      requires Valid()
      requires uid != 0 && uid !in Contents ==> |Contents| + 1 < slot.Length
      modifies this, slot
      ensures Valid()
      ensures added == (uid !in old(Contents))
      ensures Contents == if uid == 0 then old(Contents) else old(Contents) + {uid}
    {
      if uid == 0 { return true; }
      var i := Probe(uid);
      if slot[i] != 0 {
        assert Contents == Contents + {uid};
        return false;
      }
      AddRepresents(slot[..], Contents, uid, i);
      hide Represents;
      ghost var s := slot[..];
      slot[i] := uid;
      Contents := Contents + {uid};
      assert slot[..] == s[i := uid];
      added := true;
    }
  }
}
