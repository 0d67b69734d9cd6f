/** The log-structured backend on one table: the code of its operations, tied to `Operations.Exec`. */
module LogStructuredStore {
  import opened Tables
  import Compaction
  import opened SqlQueries
  import opened PointReads
  import opened Operations

  const COMPACT_MIN_RETAIN := 1000

  /** The thousand most recent revisions are never compacted. */
  predicate MayCompactTo(rev: int, target: int, current: int) {
    rev <= target && rev + 1000 <= current
  }

  /** The largest such revision, or 0 if that is negative. */
  function SafeCompactRev(target: int, current: int): (safe: int)
    ensures 0 <= safe && (0 < safe ==> MayCompactTo(safe, target, current))
    ensures forall rev :: MayCompactTo(rev, target, current) ==> rev <= safe
  {
    var safeRev := current - COMPACT_MIN_RETAIN;
    var rev := if target < safeRev then target else safeRev;
    if rev < 0 then 0 else rev
  }

  /** Compaction below the newest revision keeps the row that carries it. */
  lemma MaxIdAfterCompact(t: seq<Row>, r: int)
    requires WellFormed(t)
    ensures MaxId(Compaction.Compact(t, r)) <= MaxId(t)
    ensures Compaction.Chained(t) && r < MaxId(t) ==> MaxId(Compaction.Compact(t, r)) == MaxId(t)
  {
    var t' := Compaction.Compact(t, r);
    Compaction.CompactKeeps(t, r);
    if t' != [] {
      assert t'[|t'| - 1] in t';
      MaxIdBounds(t, t'[|t'| - 1]);
    }
    if t != [] && Compaction.Chained(t) && r < MaxId(t) {
      var last := t[|t| - 1];
      Compaction.DoomedMeans(t, r, last);
      assert last in t';
      MaxIdBounds(t', last);
    }
  }

  /* The compact revision is kept in the `prev_revision` of the reserved key's row. */

  /** SELECT MAX(prev_revision) of the reserved key. */
  function CompactRevOf(t: seq<Row>): int {
    if t == [] then 0
    else
      var last, earlier := t[|t| - 1], CompactRevOf(t[..|t| - 1]);
      if last.name == COMPACT_KEY && earlier < last.prevRev then last.prevRev else earlier
  }

  /** ... the largest there is, or 0. */
  lemma {:induction false} CompactRevIsMax(t: seq<Row>)
    ensures 0 <= CompactRevOf(t)
    ensures forall x :: x in t && x.name == COMPACT_KEY ==> x.prevRev <= CompactRevOf(t)
    ensures 0 < CompactRevOf(t) ==> exists x :: x in t && x.name == COMPACT_KEY && x.prevRev == CompactRevOf(t)
  {
    if t != [] {
      var front, last := t[..|t| - 1], t[|t| - 1];
      CompactRevIsMax(front);
      assert t == front + [last] && last in t;
      if 0 < CompactRevOf(front) {
        var x :| x in front && x.name == COMPACT_KEY && x.prevRev == CompactRevOf(front);
        assert x in t;
      }
    }
  }

  /** UPDATE kine SET prev_revision WHERE name = the reserved key. */
  function SetCompactRev(t: seq<Row>, r: int): seq<Row> {
    seq(|t|, i requires 0 <= i < |t| => if t[i].name == COMPACT_KEY then t[i].(prevRev := r) else t[i])
  }

  /** The row compactStart makes sure of. */
  ghost predicate HasCompactRow(t: seq<Row>) {
    exists x :: x in t && x.name == COMPACT_KEY && !x.deleted
  }

  lemma SetOneMore(t: seq<Row>, r: int)
    requires t != []
    ensures SetCompactRev(t, r)[..|t| - 1] == SetCompactRev(t[..|t| - 1], r)
  {}

  lemma {:induction false} CompactRevAfterSet(t: seq<Row>, r: int)
    requires 0 <= r
    ensures CompactRevOf(SetCompactRev(t, r)) == if exists x :: x in t && x.name == COMPACT_KEY then r else 0
  {
    if t != [] {
      CompactRevAfterSet(t[..|t| - 1], r);
      SetOneMore(t, r);
      assert t == t[..|t| - 1] + [t[|t| - 1]];
    }
  }

  lemma {:induction false} LatestAfterSet(t: seq<Row>, r: int, k: Key, q: int)
    requires k != COMPACT_KEY
    ensures Latest(SetCompactRev(t, r), k, q) == Latest(t, k, q)
  {
    if t != [] {
      LatestAfterSet(t[..|t| - 1], r, k, q);
      SetOneMore(t, r);
    }
  }

  lemma SetOrder(t: seq<Row>, r: int)
    requires WellFormed(t)
    ensures WellFormed(SetCompactRev(t, r)) && MaxId(SetCompactRev(t, r)) == MaxId(t)
  {
    var t' := SetCompactRev(t, r);
    assert forall i :: 0 <= i < |t| ==> t'[i].id == t[i].id && t[i] in t;
    forall x | x in t' ensures 0 < x.id {
      var i :| 0 <= i < |t'| && t'[i] == x;
    }
  }

  lemma SetMember(t: seq<Row>, r: int, x: Row)
    ensures x.name != COMPACT_KEY ==> (x in SetCompactRev(t, r) <==> x in t)
    ensures x in SetCompactRev(t, r) ==> exists y :: y in t && y.id == x.id && y.deleted == x.deleted
  {
    var t' := SetCompactRev(t, r);
    if x in t' {
      var i :| 0 <= i < |t'| && t'[i] == x;
      assert t[i] in t && t[i].id == x.id && t[i].deleted == x.deleted;
    }
    if x in t && x.name != COMPACT_KEY {
      var i :| 0 <= i < |t| && t[i] == x;
      assert t'[i] == x;
    }
  }

  lemma LinkAfterSet(t: seq<Row>, r: int, x: Row)
    requires x.name != COMPACT_KEY && Compaction.Linked(t, x)
    ensures Compaction.Linked(SetCompactRev(t, r), x)
  {
    LatestAfterSet(t, r, x.name, x.id - 1);
    if Compaction.Pred(t, x).None? {
      forall z | z in SetCompactRev(t, r) && z.id == x.prevRev ensures z.deleted { SetMember(t, r, z); }
    }
  }

  lemma SetCompactRevKeeps(t: seq<Row>, r: int)
    requires WellFormed(t)
    ensures WellFormed(SetCompactRev(t, r)) && MaxId(SetCompactRev(t, r)) == MaxId(t)
    ensures Compaction.Chained(t) ==> Compaction.Chained(SetCompactRev(t, r))
  {
    SetOrder(t, r);
    if Compaction.Chained(t) {
      forall x | x in SetCompactRev(t, r) && x.name != COMPACT_KEY ensures Compaction.Linked(SetCompactRev(t, r), x) {
        SetMember(t, r, x);
        LinkAfterSet(t, r, x);
      }
    }
  }

  class LogStructured {
    /** The table, and the AUTOINCREMENT sequence of its ids. */
    var rows: seq<Row>
    var sequence: int

    ghost predicate Valid()
      reads this
    {
      WellFormed(rows) && MaxId(rows) <= sequence && 0 <= sequence
    }

    constructor ()
      ensures Valid() && rows == [] && sequence == 0
    {
      rows, sequence := [], 0;
    }

    method CurrentRevision() returns (rev: int)
      requires Valid()
      ensures rev == MaxId(rows)
    {
      rev := MaxId(rows);
    }

    /** An INSERT under the unique index: the new id, or 0 and a refusal. Chains survive the rows that continue them. */
    method Append(row: Row) returns (rev: int, ok: bool)
      requires Valid()
      modifies this
      ensures Valid()
      ensures ok == !Clash(old(rows), row)
      ensures Compaction.Chained(old(rows)) ==>
                (Compaction.Chained(rows) <==>
                 !ok || row.name == COMPACT_KEY || Continues(old(rows), row.(id := old(sequence) + 1)))
      ensures ok ==> rev == sequence == old(sequence) + 1 && rows == Inserted(old(rows), row, rev) && MaxId(rows) == rev
      ensures !ok ==> rev == 0 && rows == old(rows) && sequence == old(sequence)
    {
      if Clash(rows, row) {
        return 0, false;
      }
      if Compaction.Chained(rows) {
        AppendKeepsChains(rows, row.(id := sequence + 1));
      }
      AppendAscending(rows, row.(id := sequence + 1));
      sequence := sequence + 1;
      rows := Inserted(rows, row, sequence);
      return sequence, true;
    }

    /** The list of the key taken as a prefix, its first row, and the revision rules laid over it. */
    method GetEvent(key: Key, limit: int, revision: int, includeDeletes: bool) returns (rev: int, event: Option<Row>)
      requires Valid()
      ensures event == Found(rows, key, revision, includeDeletes)
      ensures rev == if revision != 0 then revision else if event.Some? then MaxId(rows) else 0
    {
      var events := LogList(rows, key, [], limit, revision, includeDeletes);
      // an empty list carries no revision
      rev := if |events| == 0 then 0 else MaxId(rows);
      if revision != 0 {
        rev := revision;
      }
      if |events| == 0 {
        return rev, None;
      }
      return rev, Some(events[0]);
    }

    method AdjustRevision(rev: int) returns (adjusted: int)
      requires Valid()
      ensures adjusted == if rev != 0 then rev else MaxId(rows)
    {
      adjusted := rev;
      if adjusted == 0 {
        adjusted := CurrentRevision();
      }
    }

    /** What is found for the key at a revision, or now: for a key that reads itself its live version. */
    method Get(key: Key, limit: int, revision: int) returns (rev: int, kv: Option<KeyValue>)
      requires Valid()
      ensures var event := Found(rows, key, revision, false);
              kv == if event.Some? then Some(KvOf(event.value)) else None
      ensures ReadsItself(SqlLike, rows, key) ==>
                kv == if revision == 0 then Lookup(rows, key) else LookupAt(rows, key, revision)
      ensures rev == if revision == 0 then MaxId(rows) else revision
    {
      var event;
      rev, event := GetEvent(key, limit, revision, false);
      kv := if event.Some? then Some(KvOf(event.value)) else None;
      rev := AdjustRevision(rev);
      if ReadsItself(SqlLike, rows, key) {
        FoundExactly(rows, key, revision, false);
      }
    }

    method Create(key: Key, value: Bytes, lease: int) returns (rev: int, keyExists: bool)
      requires Valid()
      modifies this
      ensures Valid()
      ensures var (t, reply) := Exec(old(rows), Op.Create(key, value, lease), old(sequence) + 1);
              rows == t && keyExists == reply.keyExists
      ensures rev == MaxId(rows)
      ensures sequence == if rows == old(rows) then old(sequence) else old(sequence) + 1
    {
      var prevEvent;
      rev, prevEvent := GetEvent(key, 1, 0, true);
      var row := Row(0, key, true, false, 0, rev, lease, value, []);
      if prevEvent.Some? {
        if !prevEvent.value.deleted {
          rev := AdjustRevision(0);
          return rev, true;
        }
        row := row.(prevRev := prevEvent.value.id, oldValue := prevEvent.value.value);
      }
      var ok;
      rev, ok := Append(row);
      keyExists := !ok;
      rev := AdjustRevision(rev);
    }

    method Update(key: Key, value: Bytes, revision: int, lease: int)
      returns (rev: int, kv: Option<KeyValue>, updated: bool)
      requires Valid()
      modifies this
      ensures Valid()
      ensures var (t, reply) := Exec(old(rows), Op.Update(key, value, revision, lease), old(sequence) + 1);
              rows == t && kv == reply.kv && updated == reply.ok
      ensures rev == MaxId(rows)
      ensures sequence == if rows == old(rows) then old(sequence) else old(sequence) + 1
    {
      var event;
      rev, event := GetEvent(key, 1, 0, false);
      if event.None? {
        rev := AdjustRevision(0);
        return rev, None, false;
      }
      var read := KvOf(event.value);
      if read.modRev != revision {
        rev := AdjustRevision(rev);
        return rev, Some(read), false;
      }
      var row := Row(0, key, false, false, read.createRev, read.modRev, lease, value, read.value);
      var ok;
      rev, ok := Append(row);
      if !ok {
        rev, event := GetEvent(key, 1, 0, false);
        kv := if event.Some? then Some(KvOf(event.value)) else None;
        rev := AdjustRevision(rev);
        return rev, kv, false;
      }
      kv := Some(KeyValue(key, read.createRev, rev, value, lease));
      rev := AdjustRevision(rev);
      updated := true;
    }

    method Delete(key: Key, revision: int) returns (rev: int, kv: Option<KeyValue>, deleted: bool)
      requires Valid()
      modifies this
      ensures Valid()
      ensures var (t, reply) := Exec(old(rows), Op.Delete(key, revision), old(sequence) + 1);
              rows == t && kv == reply.kv && deleted == reply.ok
      ensures rev == MaxId(rows)
      ensures sequence == if rows == old(rows) then old(sequence) else old(sequence) + 1
    {
      var event;
      rev, event := GetEvent(key, 1, 0, true);
      if event.None? {
        rev := AdjustRevision(rev);
        return rev, None, true;
      }
      var read := KvOf(event.value);
      if event.value.deleted {
        rev := AdjustRevision(rev);
        return rev, Some(read), true;
      }
      if revision != 0 && read.modRev != revision {
        rev := AdjustRevision(rev);
        return rev, Some(read), false;
      }
      var row := Row(0, read.key, false, true, read.createRev, read.modRev, read.lease, read.value, read.value);
      var ok;
      rev, ok := Append(row);
      if !ok {
        var latestRev, latest := GetEvent(key, 1, 0, true);
        if latest.None? {
          rev := AdjustRevision(rev);
          return rev, Some(read), false;
        }
        rev := AdjustRevision(latestRev);
        return rev, Some(KvOf(latest.value)), false;
      }
      rev := AdjustRevision(rev);
      return rev, Some(read), true;
    }

    /**
     Compaction to `target` by a caller that believes `believed` was the last compact revision. It is refused
     when someone else compacted or nothing is left to do; otherwise, on chained rows, no live view from the new
     compact revision on changes, and neither does the current revision.
     */
    method CompactTo(believed: int, target: int) returns (compacted: int, current: int, refused: bool)
      requires Valid()
      modifies this
      ensures Valid() && sequence == old(sequence) && current == MaxId(old(rows))
      ensures refused <==> believed != CompactRevOf(old(rows)) || SafeCompactRev(target, current) <= believed
      ensures compacted == if refused then CompactRevOf(old(rows)) else SafeCompactRev(target, current)
      ensures rows == if refused then old(rows) else SetCompactRev(Compaction.Compact(old(rows), compacted), compacted)
      ensures Compaction.Chained(old(rows)) ==>
                && Compaction.Chained(rows) && MaxId(rows) == current
                && forall k, q :: k != COMPACT_KEY && (refused || compacted <= q)
                     ==> LookupAt(rows, k, q) == LookupAt(old(rows), k, q)
      ensures Compaction.Chained(old(rows)) && HasCompactRow(old(rows)) ==> CompactRevOf(rows) == compacted
    {
      current := CurrentRevision();
      compacted := CompactRevOf(rows);
      if believed != compacted {
        return compacted, current, true;
      }
      var safe := SafeCompactRev(target, current);
      if safe <= believed {
        return compacted, current, true;
      }
      CompactRevIsMax(rows);
      CompactionKeeps(rows, safe);
      rows := Compaction.Compact(rows, safe);
      rows := SetCompactRev(rows, safe);
      return safe, current, false;
    }
  }

  /** The two statements of the compaction transaction. */
  lemma CompactionKeeps(t: seq<Row>, r: int)
    requires WellFormed(t) && 0 <= r
    ensures var t' := SetCompactRev(Compaction.Compact(t, r), r);
            && WellFormed(t') && MaxId(t') <= MaxId(t)
            && (Compaction.Chained(t) ==> Compaction.Chained(t') && (r < MaxId(t) ==> MaxId(t') == MaxId(t)))
            && (Compaction.Chained(t) ==>
                  forall k, q :: k != COMPACT_KEY && r <= q ==> LookupAt(t', k, q) == LookupAt(t, k, q))
            && (Compaction.Chained(t) && HasCompactRow(t) ==> CompactRevOf(t') == r)
  {
    var t1 := Compaction.Compact(t, r);
    Compaction.CompactKeeps(t, r);
    MaxIdAfterCompact(t, r);
    SetCompactRevKeeps(t1, r);
    CompactRevAfterSet(t1, r);
    if Compaction.Chained(t) {
      Compaction.CompactKeepsChains(t, r);
      forall k, q | k != COMPACT_KEY && r <= q ensures LookupAt(SetCompactRev(t1, r), k, q) == LookupAt(t, k, q) {
        LatestAfterSet(t1, r, k, q);
        Compaction.CompactKeepsViews(t, r, k, q);
      }
      if x :| x in t && x.name == COMPACT_KEY && !x.deleted {
        Compaction.DoomedMeans(t, r, x);
        assert x in t1;
      }
    }
  }
}
