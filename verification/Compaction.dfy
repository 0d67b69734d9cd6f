/**
 Compaction: the DELETE statement of the SQL drivers, on tables whose rows of a key form a chain.
 */
module Compaction {
  import opened Tables

  /** The row a row of the same key follows in the table. */
  function Pred(t: seq<Row>, x: Row): Option<Row> {
    Latest(t, x.name, x.id - 1)
  }

  /**
   What a row says about the row it was written over: its id and its value, creation over a tombstone and only there,
   an unchanged create revision otherwise, and for a tombstone an unchanged value and lease.
   */
  predicate Follows(p: Row, x: Row) {
    && x.prevRev == p.id && x.oldValue == p.value
    && (x.created <==> p.deleted)
    && x.createRev == (if x.created then 0 else KvOf(p).createRev)
    && (x.deleted ==> !p.deleted && x.value == p.value && x.lease == p.lease)
  }

  /** What the first row of a key says: it creates the key, or it is a tombstone over nothing, as fillers are. */
  predicate Begins(x: Row) {
    (x.created <==> !x.deleted) && x.oldValue == [] && x.createRev == 0
  }

  /**
   A row follows the key's previous row in the table. The oldest row of the key that is still in the table may point
   at a row that was compacted away, or carry 0 and begin the key. Where it points there is no row any more, unless a
   filler has taken the revision.
   */
  ghost predicate Linked(t: seq<Row>, x: Row) {
    && 0 <= x.prevRev < x.id
    && match Pred(t, x)
       case Some(p) => Follows(p, x)
       case None => (x.prevRev == 0 ==> Begins(x)) && PointsAtNone(t, x.prevRev)
  }

  ghost predicate PointsAtNone(t: seq<Row>, id: int) {
    forall z :: z in t && z.id == id ==> z.deleted
  }

  /** Rows of every key form (a suffix of) a chain; the store rewrites its own reserved row at will. */
  ghost predicate Chained(t: seq<Row>) {
    forall x :: x in t && x.name != COMPACT_KEY ==> Linked(t, x)
  }

  /** The first half of the UNION: `x` is named as the predecessor of a row at or below `r`. */
  predicate SupersededBy(kp: Row, r: int, x: Row) {
    kp.name != COMPACT_KEY && kp.prevRev != 0 && kp.id <= r && x.id == kp.prevRev
  }

  predicate Superseded(t: seq<Row>, r: int, x: Row) {
    exists kp :: kp in t && SupersededBy(kp, r, x)
  }

  /** The second half of the UNION: `x` shares its id with a tombstone at or below `r`. */
  predicate Buried(t: seq<Row>, r: int, x: Row) {
    exists kd :: kd in t && kd.deleted && kd.id <= r && x.id == kd.id
  }

  predicate Doomed(t: seq<Row>, r: int, x: Row) {
    Superseded(t, r, x) || Buried(t, r, x)
  }

  /** DELETE FROM kine WHERE id IN (superseded ids UNION tombstone ids). */
  function Compact(t: seq<Row>, r: int): seq<Row> {
    Filter(t, x => !Doomed(t, r, x))
  }

  /** MySQL's form: DELETE kv FROM kine kv INNER JOIN (the same ids) ks ON kv.id = ks.id. */
  function JoinIds(t: seq<Row>, r: int): set<int> {
    (set kp | kp in t && kp.name != COMPACT_KEY && kp.prevRev != 0 && kp.id <= r :: kp.prevRev)
    + (set kd | kd in t && kd.deleted && kd.id <= r :: kd.id)
  }

  function CompactJoin(t: seq<Row>, r: int): seq<Row> {
    var ids := JoinIds(t, r);
    Filter(t, (x: Row) => x.id !in ids)
  }

  lemma CompactKeeps(t: seq<Row>, r: int)
    requires WellFormed(t)
    ensures WellFormed(Compact(t, r))
    ensures forall x {:trigger x in Compact(t, r)} :: x in Compact(t, r) <==> x in t && !Doomed(t, r, x)
  {
    FilterAscending(t, x => !Doomed(t, r, x));
  }

  lemma JoinFormEqualsInForm(t: seq<Row>, r: int)
    requires WellFormed(t)
    ensures CompactJoin(t, r) == Compact(t, r)
  {
    var ids := JoinIds(t, r);
    FilterAscending(t, (x: Row) => x.id !in ids);
    CompactKeeps(t, r);
    forall x | x in t ensures x.id in ids <==> Doomed(t, r, x) {
      if x.id in ids && !Buried(t, r, x) {
        var kp :| kp in t && kp.name != COMPACT_KEY && kp.prevRev != 0 && kp.id <= r && kp.prevRev == x.id;
        assert SupersededBy(kp, r, x);
      }
    }
    SameRowsSameSeq(CompactJoin(t, r), Compact(t, r));
  }

  lemma BuriedMeans(t: seq<Row>, r: int, x: Row)
    requires WellFormed(t) && x in t
    ensures Buried(t, r, x) <==> x.deleted && x.id <= r
  {
    if Buried(t, r, x) {
      var kd :| kd in t && kd.deleted && kd.id <= r && x.id == kd.id;
      SameIdSameRow(t, x, kd);
    }
  }

  /** `x` is the direct predecessor of a row at or below `r`. */
  ghost predicate Preceded(t: seq<Row>, r: int, x: Row) {
    exists y :: y in t && y.name == x.name && y.id <= r && Pred(t, y) == Some(x)
  }

  lemma SupersededMeans(t: seq<Row>, r: int, x: Row, kp: Row)
    requires WellFormed(t) && Chained(t) && x in t && kp in t && SupersededBy(kp, r, x)
    ensures x.id <= r && (x.deleted || (x.name != COMPACT_KEY && Preceded(t, r, x)))
  {
    assert Linked(t, kp);
    LatestIsLatest(t, kp.name, kp.id - 1);
    if Pred(t, kp).Some? {
      SameIdSameRow(t, Pred(t, kp).value, x);
      assert Preceded(t, r, x);
    }
  }

  lemma PrecededIsSuperseded(t: seq<Row>, r: int, x: Row)
    requires WellFormed(t) && Chained(t) && x in t && x.name != COMPACT_KEY && Preceded(t, r, x)
    ensures Superseded(t, r, x) && x.id <= r
  {
    var y :| y in t && y.name == x.name && y.id <= r && Pred(t, y) == Some(x);
    assert Linked(t, y);
    LatestIsLatest(t, y.name, y.id - 1);
    assert SupersededBy(y, r, x);
  }

  /** In a chained table a doomed row is a tombstone, or the predecessor of a row, at or below `r`. */
  lemma DoomedMeans(t: seq<Row>, r: int, x: Row)
    requires WellFormed(t) && Chained(t) && x in t
    ensures Doomed(t, r, x) <==> (x.deleted && x.id <= r) || (x.name != COMPACT_KEY && Preceded(t, r, x))
    ensures Doomed(t, r, x) ==> x.id <= r
  {
    BuriedMeans(t, r, x);
    if Superseded(t, r, x) {
      var kp :| kp in t && SupersededBy(kp, r, x);
      SupersededMeans(t, r, x, kp);
    }
    if x.name != COMPACT_KEY && Preceded(t, r, x) { PrecededIsSuperseded(t, r, x); }
  }

  /** Between two rows of a key lies a direct successor of the older one. */
  lemma {:induction false} Successor(t: seq<Row>, x: Row, y: Row) returns (z: Row)
    requires WellFormed(t) && x in t && y in t && x.name == y.name && x.id < y.id
    ensures z in t && z.name == x.name && z.id <= y.id && Pred(t, z) == Some(x)
    decreases y.id
  {
    LatestIsLatest(t, y.name, y.id - 1);
    var p := Pred(t, y).value;
    if p.id == x.id {
      SameIdSameRow(t, p, x);
      z := y;
    } else {
      z := Successor(t, x, p);
    }
  }

  /** Every row older than a doomed row of the same key is doomed: what goes is a prefix of the chain. */
  lemma DoomedIsPrefix(t: seq<Row>, r: int, x: Row, y: Row)
    requires WellFormed(t) && Chained(t)
    requires x in t && y in t && x.name == y.name != COMPACT_KEY && x.id < y.id
    requires Doomed(t, r, y)
    ensures Doomed(t, r, x)
  {
    DoomedMeans(t, r, y);
    DoomedMeans(t, r, x);
    var z := Successor(t, x, y);
  }

  /** At a revision from the target on, a key's newest row stays unless it is a tombstone at or below the target. */
  lemma LatestAfterCompact(t: seq<Row>, r: int, k: Key, q: int)
    requires WellFormed(t) && Chained(t) && k != COMPACT_KEY && r <= q
    ensures Latest(Compact(t, r), k, q) ==
            match Latest(t, k, q)
            case None => None
            case Some(x) => if x.deleted && x.id <= r then None else Some(x)
  {
    var t' := Compact(t, r);
    CompactKeeps(t, r);
    LatestIsLatest(t, k, q);
    if Latest(t, k, q).Some? {
      var x := Latest(t, k, q).value;
      DoomedMeans(t, r, x);
      forall y | y in t && Pred(t, y) == Some(x) && y.name == k ensures r < y.id {
        LatestIsLatest(t, k, y.id - 1);
      }
      if Doomed(t, r, x) {
        forall y | y in t && y.name == k && y.id <= q ensures Doomed(t, r, y) {
          if y.id < x.id { DoomedIsPrefix(t, r, y, x); } else { SameIdSameRow(t, x, y); }
        }
        LatestUnique(t', k, q, None);
      } else {
        LatestUnique(t', k, q, Some(x));
      }
    } else {
      LatestUnique(t', k, q, None);
    }
  }

  /** Compaction at `r` changes no live view at or above `r`: nothing is lost and nothing resurfaces. */
  lemma CompactKeepsViews(t: seq<Row>, r: int, k: Key, q: int)
    requires WellFormed(t) && Chained(t) && k != COMPACT_KEY && r <= q
    ensures LookupAt(Compact(t, r), k, q) == LookupAt(t, k, q)
  {
    LatestAfterCompact(t, r, k, q);
  }

  /** ... and below `r` it keeps nothing but the row that is live at `r`. */
  lemma CompactKeepsOnlyLive(t: seq<Row>, r: int, x: Row)
    requires WellFormed(t) && Chained(t) && x in t && x.name != COMPACT_KEY && x.id <= r
    ensures x in Compact(t, r) <==> Latest(t, x.name, r) == Some(x) && !x.deleted
  {
    CompactKeeps(t, r);
    DoomedMeans(t, r, x);
    LatestIsLatest(t, x.name, r);
    var l := Latest(t, x.name, r).value;
    if x.id < l.id {
      var z := Successor(t, x, l);
    } else {
      SameIdSameRow(t, x, l);
      forall y | y in t && Pred(t, y) == Some(x) && y.name == x.name ensures r < y.id {
        LatestIsLatest(t, x.name, y.id - 1);
      }
    }
  }

  /** Rows can only go. */
  ghost predicate IsPart(t': seq<Row>, t: seq<Row>) {
    WellFormed(t) && WellFormed(t') && forall z :: z in t' ==> z in t
  }

  lemma OldestStays(t: seq<Row>, t': seq<Row>, x: Row)
    requires IsPart(t', t) && Linked(t, x) && Pred(t, x) == None
    ensures Linked(t', x)
  {
    LatestIsLatest(t, x.name, x.id - 1);
    LatestUnique(t', x.name, x.id - 1, None);
  }

  lemma FollowerStays(t: seq<Row>, t': seq<Row>, x: Row)
    requires IsPart(t', t) && Linked(t, x) && Pred(t, x).Some? && Pred(t, x).value in t'
    ensures Linked(t', x)
  {
    LatestIsLatest(t, x.name, x.id - 1);
    LatestUnique(t', x.name, x.id - 1, Pred(t, x));
  }

  /** The predecessor has gone, and everything before it. */
  lemma BereftStays(t': seq<Row>, x: Row, p: Row)
    requires WellFormed(t') && Follows(p, x) && 0 < p.id < x.id
    requires forall z :: z in t' ==> z.id != p.id && (z.name == x.name ==> x.id <= z.id)
    ensures Linked(t', x)
  {
    LatestUnique(t', x.name, x.id - 1, None);
  }

  /** Everything up to a doomed row of the key goes. */
  lemma NoneUpTo(t: seq<Row>, r: int, x: Row, p: Row, y: Row)
    requires WellFormed(t) && Chained(t) && x.name != COMPACT_KEY && Pred(t, x) == Some(p) && Doomed(t, r, p)
    requires y in Compact(t, r)
    ensures y.id != p.id && (y.name == x.name ==> x.id <= y.id)
  {
    CompactKeeps(t, r);
    LatestIsLatest(t, x.name, x.id - 1);
    if y.id == p.id {
      SameIdSameRow(t, y, p);
    } else if y.name == x.name && y.id < p.id {
      DoomedIsPrefix(t, r, y, p);
    }
  }

  lemma CompactIsPart(t: seq<Row>, r: int)
    requires WellFormed(t)
    ensures IsPart(Compact(t, r), t)
  {
    CompactKeeps(t, r);
  }

  lemma Spared(t: seq<Row>, r: int, x: Row)
    requires WellFormed(t) && x in t && !Doomed(t, r, x)
    ensures x in Compact(t, r)
  {
    CompactKeeps(t, r);
  }

  lemma LinkAfterCompact(t: seq<Row>, r: int, x: Row)
    requires WellFormed(t) && Chained(t)
    requires x in t && x.name != COMPACT_KEY && !Doomed(t, r, x)
    ensures Linked(Compact(t, r), x)
  {
    assert Linked(t, x);
    CompactIsPart(t, r);
    if Pred(t, x).None? {
      OldestStays(t, Compact(t, r), x);
    } else {
      var p := Pred(t, x).value;
      LatestIsLatest(t, x.name, x.id - 1);
      if Doomed(t, r, p) {
        forall y | y in Compact(t, r) ensures y.id != p.id && (y.name == x.name ==> x.id <= y.id) {
          NoneUpTo(t, r, x, p, y);
        }
        BereftStays(Compact(t, r), x, p);
      } else {
        Spared(t, r, p);
        FollowerStays(t, Compact(t, r), x);
      }
    }
  }

  /** Compaction leaves suffixes of chains, so it can be repeated. */
  lemma CompactKeepsChains(t: seq<Row>, r: int)
    requires WellFormed(t) && Chained(t)
    ensures WellFormed(Compact(t, r)) && Chained(Compact(t, r))
  {
    CompactKeeps(t, r);
    forall x | x in Compact(t, r) && x.name != COMPACT_KEY ensures Linked(Compact(t, r), x) {
      LinkAfterCompact(t, r, x);
    }
  }

  /** Compacting in batches of growing target revisions ends where one compaction to the last target ends. */
  lemma BatchesCompose(t: seq<Row>, r1: int, r2: int)
    requires WellFormed(t) && Chained(t) && r1 <= r2
    ensures Compact(Compact(t, r1), r2) == Compact(t, r2)
  {
    var t1 := Compact(t, r1);
    CompactKeepsChains(t, r1);
    CompactKeeps(t, r1);
    CompactKeeps(t, r2);
    CompactKeeps(t1, r2);
    forall x ensures x in Compact(t1, r2) <==> x in Compact(t, r2) {
      if x in t {
        if Superseded(t, r1, x) {
          var kp :| kp in t && SupersededBy(kp, r1, x);
          assert SupersededBy(kp, r2, x);
        }
        if Superseded(t, r2, x) && !Doomed(t, r1, x) {
          var kp :| kp in t && SupersededBy(kp, r2, x);
          DoomedMeans(t, r1, kp);
          assert SupersededBy(kp, r1, x) <==> kp.id <= r1;
          assert kp in t1;
        }
      }
    }
    SameRowsSameSeq(Compact(t1, r2), Compact(t, r2));
  }

  /**
   The reserved key is outside the first half of the rule, so for it a view can change: burying its
   tombstone uncovers an older live row. This is exactly when that happens, at any revision from the target on.
   */
  lemma ReservedKeyView(t: seq<Row>, r: int, q: int)
    requires WellFormed(t) && Chained(t) && r <= q
    ensures var newest := Latest(t, COMPACT_KEY, q);
            LookupAt(Compact(t, r), COMPACT_KEY, q) == LookupAt(t, COMPACT_KEY, q)
            <==> (newest.Some? && newest.value.deleted && newest.value.id <= r ==>
                    forall x :: x in t && x.name == COMPACT_KEY && x.id <= r ==> x.deleted)
  {
    var t' := Compact(t, r);
    var newest := Latest(t, COMPACT_KEY, q);
    CompactKeeps(t, r);
    LatestIsLatest(t, COMPACT_KEY, q);
    LatestIsLatest(t', COMPACT_KEY, q);
    forall x | x in t && x.name == COMPACT_KEY ensures Doomed(t, r, x) <==> x.deleted && x.id <= r {
      DoomedMeans(t, r, x);
    }
    if newest.Some? && !(newest.value.deleted && newest.value.id <= r) {
      LatestUnique(t', COMPACT_KEY, q, newest);
    }
  }

  /* Fillers. */

  /** A revision that no row has, and a filler's name that nobody else has taken. */
  ghost predicate CanFill(t: seq<Row>, id: nat) {
    0 < id && forall x :: x in t ==> x.id != id && x.name != FillKey(id)
  }

  lemma LinkTransfers(t: seq<Row>, t': seq<Row>, x: Row)
    requires Linked(t, x) && Pred(t', x) == Pred(t, x)
    requires forall z :: z in t' ==> z in t || z.deleted
    ensures Linked(t', x)
  {}

  lemma LinkAfterInsert(t: seq<Row>, t': seq<Row>, f: Row, x: Row)
    requires OneRowMore(t, t', f) && f.deleted && x.name != f.name && Linked(t, x)
    ensures Linked(t', x)
  {
    LatestAfterInsert(t, t', f, x.name, x.id - 1);
    LinkTransfers(t, t', x);
  }

  lemma FillerIsLinked(t: seq<Row>, t': seq<Row>, f: Row)
    requires OneRowMore(t, t', f) && forall x :: x in t ==> x.name != f.name
    requires 0 < f.id && Begins(f) && f.prevRev == 0
    ensures Linked(t', f)
  {
    LatestUnique(t', f.name, f.id - 1, None);
  }

  /** Filling a missing revision, in the middle or not, keeps all chains. */
  lemma FillKeepsChains(t: seq<Row>, id: nat)
    requires WellFormed(t) && Chained(t) && CanFill(t, id)
    ensures WellFormed(InsertRow(t, Filler(id))) && Chained(InsertRow(t, Filler(id)))
  {
    var t', f := InsertRow(t, Filler(id)), Filler(id);
    InsertRowKeeps(t, f);
    forall x | x in t' && x.name != COMPACT_KEY ensures Linked(t', x) {
      if x in t { LinkAfterInsert(t, t', f, x); } else { FillerIsLinked(t, t', f); }
    }
  }

  /** ... and no live view of any key at any revision changes. */
  lemma FillKeepsViews(t: seq<Row>, id: nat, k: Key, q: int)
    requires WellFormed(t) && CanFill(t, id)
    ensures LookupAt(InsertRow(t, Filler(id)), k, q) == LookupAt(t, k, q)
  {
    var t', f := InsertRow(t, Filler(id)), Filler(id);
    InsertRowKeeps(t, f);
    if k != FillKey(id) {
      LatestAfterInsert(t, t', f, k, q);
    } else {
      LatestIsLatest(t', k, q);
      LatestIsLatest(t, k, q);
    }
  }
}
