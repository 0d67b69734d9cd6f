/**
 The three write operations of the log-structured store, each split where the code splits it: a read of
 the key's newest row, a decision on what was read, and an append guarded by the unique index on
 (name, prev_revision). Run without interruption they refine compare-and-set on a map, for the keys that reads
 take for themselves.
 */
module Operations {
  import opened Tables
  import opened Compaction
  import opened SqlQueries
  import opened QueryEngine
  import opened PointReads

  datatype Op =
    | Create(key: Key, value: Bytes, lease: int)
    | Update(key: Key, value: Bytes, revision: int, lease: int)
    | Delete(key: Key, revision: int)

  /** `keyExists` is the error of Create; `kv` and `ok` are the other results. */
  datatype Reply = Reply(kv: Option<KeyValue>, ok: bool, keyExists: bool)

  /** Either answer from the read alone, or try to append this row (its id is still to be assigned). */
  datatype Decision = Answer(reply: Reply) | Attempt(row: Row)

  function Decide(op: Op, read: Option<Row>): Decision {
    match op
    case Create(key, value, lease) =>
      if read.None? then
        // an empty list reports revision 0, and that is what becomes prev_revision
        Attempt(Row(0, key, true, false, 0, 0, lease, value, []))
      else if !read.value.deleted then
        Answer(Reply(None, false, true))
      else
        Attempt(Row(0, key, true, false, 0, read.value.id, lease, value, read.value.value))
    case Update(key, value, revision, lease) =>
      if read.None? then
        Answer(Reply(None, false, false))
      else
        var kv := KvOf(read.value);
        if kv.modRev != revision then
          Answer(Reply(Some(kv), false, false))
        else
          Attempt(Row(0, key, false, false, kv.createRev, kv.modRev, lease, value, kv.value))
    case Delete(key, revision) =>
      if read.None? then
        Answer(Reply(None, true, false))
      else
        var kv := KvOf(read.value);
        if read.value.deleted then
          Answer(Reply(Some(kv), true, false))
        else if revision != 0 && kv.modRev != revision then
          Answer(Reply(Some(kv), false, false))
        else
          // the event found is written again, under its own key
          Attempt(Row(0, kv.key, false, true, kv.createRev, kv.modRev, kv.lease, kv.value, kv.value))
  }

  /** The unique index on (name, prev_revision) refuses the row. */
  predicate Clash(t: seq<Row>, row: Row) {
    exists x :: x in t && x.name == row.name && x.prevRev == row.prevRev
  }

  function Inserted(t: seq<Row>, row: Row, id: int): seq<Row> {
    t + [row.(id := id)]
  }

  /** What a successful append answers; a delete returns what it read. */
  function Done(op: Op, read: Option<Row>, row: Row, id: int): Reply {
    match op
    case Create(_, _, _) => Reply(None, true, false)
    case Update(_, _, _, _) => Reply(Some(KvOf(row.(id := id))), true, false)
    case Delete(_, _) => Reply(if read.Some? then Some(KvOf(read.value)) else None, true, false)
  }

  /** What a refused append answers, after a fresh read by Update and Delete. */
  function Refused(op: Op, reread: Option<Row>, read: Option<Row>): Reply {
    match op
    case Create(_, _, _) => Reply(None, false, true)
    case Update(_, _, _, _) => Reply(if reread.Some? then Some(KvOf(reread.value)) else None, false, false)
    case Delete(_, _) =>
      if reread.Some? then Reply(Some(KvOf(reread.value)), false, false)
      else Reply(if read.Some? then Some(KvOf(read.value)) else None, false, false)
  }

  /** What an operation reads on an SQL driver; Update does not ask for tombstones. */
  function ReadOf(t: seq<Row>, op: Op): Option<Row> {
    Found(t, op.key, 0, !op.Update?)
  }

  /** What it ought to read. */
  function Due(t: seq<Row>, op: Op): Option<Row> {
    Unless(Newest(t, op.key), !op.Update?)
  }

  lemma ReadIsDue(t: seq<Row>, op: Op)
    requires WellFormed(t) && ReadsItself(SqlLike, t, op.key)
    ensures ReadOf(t, op) == Due(t, op)
  {
    FoundExactly(t, op.key, 0, !op.Update?);
  }

  /** An operation run without interruption on an SQL driver: the new table and the reply. */
  function Exec(t: seq<Row>, op: Op, id: int): (seq<Row>, Reply) {
    var read := ReadOf(t, op);
    match Decide(op, read)
    case Answer(reply) => (t, reply)
    case Attempt(row) =>
      if Clash(t, row) then (t, Refused(op, ReadOf(t, op), read))
      else (Inserted(t, row, id), Done(op, read, row, id))
  }

  /* The reference: compare-and-set on a map from keys to versioned values. */

  type Store = map<Key, KeyValue>

  function MapStep(m: Store, op: Op, id: int): (Store, Reply) {
    match op
    case Create(key, value, lease) =>
      if key in m then (m, Reply(None, false, true))
      else (m[key := KeyValue(key, id, id, value, lease)], Reply(None, true, false))
    case Update(key, value, revision, lease) =>
      if key !in m then (m, Reply(None, false, false))
      else if m[key].modRev != revision then (m, Reply(Some(m[key]), false, false))
      else
        var kv := KeyValue(key, m[key].createRev, id, value, lease);
        (m[key := kv], Reply(Some(kv), true, false))
    case Delete(key, revision) =>
      if key !in m then (m, Reply(None, true, false))
      else if revision != 0 && m[key].modRev != revision then (m, Reply(Some(m[key]), false, false))
      else (m - {key}, Reply(Some(m[key]), true, false))
  }

  function At(m: Store, k: Key): Option<KeyValue> {
    if k in m then Some(m[k]) else None
  }

  /** The table shows exactly the map. The store's own reserved row is not a client key. */
  ghost predicate Shows(t: seq<Row>, m: Store) {
    forall k :: k != COMPACT_KEY ==> Lookup(t, k) == At(m, k)
  }

  /** The `prev_revision` that the next row of the key has to carry. */
  function Expected(t: seq<Row>, k: Key): int {
    match Newest(t, k)
    case None => 0
    case Some(n) => n.id
  }

  lemma AttemptCarriesExpected(t: seq<Row>, op: Op)
    requires Ascending(t) && Decide(op, Due(t, op)).Attempt?
    ensures var row := Decide(op, Due(t, op)).row;
            row.name == op.key && row.prevRev == Expected(t, op.key)
  {
    NewestIsNewest(t, op.key);
  }

  /** The row an operation attempts after the read it ought to have continues the chain it was decided on. */
  lemma AttemptContinues(t: seq<Row>, op: Op, id: int)
    requires WellFormed(t) && MaxId(t) < id && 0 < id && Decide(op, Due(t, op)).Attempt?
    ensures Continues(t, Decide(op, Due(t, op)).row.(id := id))
  {
    NewestIsNewest(t, op.key);
  }

  /** The index lets through exactly the row that continues the key's chain, and none in its place. */
  lemma ExpectedNeverClashes(t: seq<Row>, row: Row)
    requires WellFormed(t) && Chained(t) && row.name != COMPACT_KEY
    requires row.prevRev == Expected(t, row.name)
    ensures !Clash(t, row)
  {
    NewestIsNewest(t, row.name);
    forall x | x in t && x.name == row.name ensures x.prevRev != row.prevRev {
      assert Linked(t, x);
    }
  }

  lemma LinkAfterAppend(t: seq<Row>, r: Row, x: Row)
    requires WellFormed(t) && MaxId(t) < r.id && 0 < r.id
    requires x in t && Linked(t, x)
    ensures Linked(t + [r], x)
  {
    AppendAscending(t, r);
    MaxIdBounds(t, x);
    LatestIsLatest(t, x.name, x.id - 1);
    LatestUnique(t + [r], x.name, x.id - 1, Pred(t, x));
  }

  /** When a row appended above every id continues its key's chain. */
  ghost predicate Continues(t: seq<Row>, r: Row) {
    match Newest(t, r.name)
    case Some(n) => Follows(n, r)
    case None => 0 <= r.prevRev < r.id && (r.prevRev == 0 ==> Begins(r)) && PointsAtNone(t, r.prevRev)
  }

  lemma PredOfAppended(t: seq<Row>, r: Row)
    requires WellFormed(t) && MaxId(t) < r.id && 0 < r.id
    ensures WellFormed(t + [r])
    ensures Pred(t + [r], r) == Newest(t, r.name)
  {
    AppendAscending(t, r);
    NewestIsNewest(t, r.name);
    forall x | x in t ensures x.id < r.id { MaxIdBounds(t, x); }
    LatestUnique(t + [r], r.name, r.id - 1, Newest(t, r.name));
  }

  lemma AppendedLink(t: seq<Row>, r: Row)
    requires WellFormed(t) && MaxId(t) < r.id && 0 < r.id
    ensures WellFormed(t + [r])
    ensures Linked(t + [r], r) <==> Continues(t, r)
  {
    PredOfAppended(t, r);
    NewestIsNewest(t, r.name);
  }

  lemma AppendKeepsChains(t: seq<Row>, r: Row)
    requires WellFormed(t) && Chained(t) && MaxId(t) < r.id && 0 < r.id
    ensures WellFormed(t + [r])
    ensures Chained(t + [r]) <==> (r.name == COMPACT_KEY || Continues(t, r))
  {
    AppendedLink(t, r);
    assert r in t + [r];
    if r.name == COMPACT_KEY || Continues(t, r) {
      forall x | x in t + [r] && x.name != COMPACT_KEY ensures Linked(t + [r], x) {
        if x in t { LinkAfterAppend(t, r, x); }
      }
    }
  }

  /** Uninterrupted, an operation that decides to append is let through by the index. */
  lemma AttemptGoesThrough(t: seq<Row>, op: Op, id: int)
    requires WellFormed(t) && Chained(t) && MaxId(t) < id && 0 < id && op.key != COMPACT_KEY
    requires Decide(op, Due(t, op)).Attempt?
    ensures var row := Decide(op, Due(t, op)).row;
            && row.name == op.key && !Clash(t, row)
            && WellFormed(Inserted(t, row, id)) && Chained(Inserted(t, row, id)) && MaxId(Inserted(t, row, id)) == id
  {
    var row := Decide(op, Due(t, op)).row;
    AttemptCarriesExpected(t, op);
    ExpectedNeverClashes(t, row);
    AttemptContinues(t, op, id);
    AppendKeepsChains(t, row.(id := id));
    AppendAscending(t, row.(id := id));
  }

  lemma ExecAttempts(t: seq<Row>, op: Op, id: int)
    requires WellFormed(t) && Chained(t) && MaxId(t) < id && 0 < id
    requires op.key != COMPACT_KEY && ReadsItself(SqlLike, t, op.key) && Decide(op, Due(t, op)).Attempt?
    ensures var row := Decide(op, Due(t, op)).row;
            Exec(t, op, id) == (Inserted(t, row, id), Done(op, Due(t, op), row, id))
  {
    ReadIsDue(t, op);
    AttemptGoesThrough(t, op, id);
  }

  /** The key's last version, be it a tombstone. */
  function LastVersion(t: seq<Row>, k: Key): Option<KeyValue> {
    match Newest(t, k)
    case None => None
    case Some(n) => Some(KvOf(n))
  }

  /** A table in good order, the map it shows, and an id that is still free. */
  ghost predicate Serves(t: seq<Row>, m: Store, id: int) {
    WellFormed(t) && Chained(t) && MaxId(t) < id && 0 < id && Shows(t, m)
  }

  /**
   The operation does on the table what compare-and-set does on the map, in effect and in reply; deleting a key that is
   not there shows its tombstone, if there still is one.
   */
  ghost predicate Refines(t: seq<Row>, m: Store, op: Op, id: int) {
    var (t', reply) := Exec(t, op, id);
    var (m', answer) := MapStep(m, op, id);
    && WellFormed(t') && Chained(t') && Shows(t', m') && MaxId(t') <= id
    && reply.ok == answer.ok && reply.keyExists == answer.keyExists
    && reply.kv == (if op.Delete? && op.key !in m then LastVersion(t, op.key) else answer.kv)
    && (t' == t <==> m' == m)
  }

  lemma ShowsAfterWrite(t: seq<Row>, m: Store, op: Op, id: int)
    requires Serves(t, m, id) && op.key != COMPACT_KEY && Decide(op, Due(t, op)).Attempt?
    ensures Shows(Inserted(t, Decide(op, Due(t, op)).row, id), MapStep(m, op, id).0)
  {
    var z, m' := Decide(op, Due(t, op)).row.(id := id), MapStep(m, op, id).0;
    AttemptCarriesExpected(t, op);
    assert Lookup(t, op.key) == At(m, op.key);
    forall k | k != COMPACT_KEY ensures Lookup(t + [z], k) == At(m', k) {
      NewestAfterAppend(t, z, k);
      assert Lookup(t, k) == At(m, k);
    }
  }

  /** The id of a write is fresh, so the map is not what it was. */
  lemma WriteChangesMap(t: seq<Row>, m: Store, op: Op, id: int)
    requires Serves(t, m, id) && op.key != COMPACT_KEY && Decide(op, Due(t, op)).Attempt?
    ensures MapStep(m, op, id).0 != m
  {
    assert Lookup(t, op.key) == At(m, op.key);
    NewestIsNewest(t, op.key);
    if Newest(t, op.key).Some? { MaxIdBounds(t, Newest(t, op.key).value); }
    assert At(MapStep(m, op, id).0, op.key) != At(m, op.key);
  }

  /** Uninterrupted, an operation on a key that reads itself is compare-and-set; a fresh id tells writes apart. */
  lemma ExecRefinesMap(t: seq<Row>, m: Store, op: Op, id: int)
    requires Serves(t, m, id) && op.key != COMPACT_KEY && ReadsItself(SqlLike, t, op.key)
    ensures Refines(t, m, op, id)
  {
    ReadIsDue(t, op);
    assert Lookup(t, op.key) == At(m, op.key);
    if Decide(op, Due(t, op)).Attempt? {
      AttemptGoesThrough(t, op, id);
      ExecAttempts(t, op, id);
      ShowsAfterWrite(t, m, op, id);
      WriteChangesMap(t, m, op, id);
      assert |Exec(t, op, id).0| == |t| + 1;
    }
  }

  /** What is answered from the read it ought to have is the answer of compare-and-set. */
  lemma AnswerIsDue(t: seq<Row>, m: Store, op: Op, id: int)
    requires Ascending(t) && op.key != COMPACT_KEY && Shows(t, m) && Decide(op, Due(t, op)).Answer?
    ensures var (m', answer) := MapStep(m, op, id); var reply := Decide(op, Due(t, op)).reply;
            && m' == m && reply.ok == answer.ok && reply.keyExists == answer.keyExists
            && reply.kv == if op.Delete? && op.key !in m then LastVersion(t, op.key) else answer.kv
  {
    assert Lookup(t, op.key) == At(m, op.key);
  }

  /**
   For any other key there is a table where Create reports a stranger as the key, Delete deletes the stranger, and
   Update writes the key over the stranger's version.
   */
  lemma InexactKeyMisfires(k: Key) returns (t: seq<Row>, m: Store, other: Key)
    requires !ExactKey(SqlLike, k)
    ensures Serves(t, m, 2) && other != k && k !in m && |t| == 1 && t[0].name == other && !t[0].deleted
    ensures Exec(t, Create(k, [], 0), 2).1.keyExists
    ensures var t' := Exec(t, Delete(k, 0), 2).0; |t'| == 2 && t'[1].name == other && t'[1].deleted
    ensures var t' := Exec(t, Update(k, [], 1, 0), 2).0;
            |t'| == 2 && t'[1].name == k && t'[1].prevRev == 1 && t'[1].createRev == 1 && !t'[1].deleted
  {
    var row;
    t, row := StrangersTable(SqlLike, k);
    other := row.name;
    m := if other == COMPACT_KEY then map[] else map[other := KvOf(row)];
    FoundIsListed(t, k, 0, true);
    forall x | x in t ensures Linked(t, x) { LatestUnique(t, x.name, 0, None); }
    forall j | j != COMPACT_KEY ensures Lookup(t, j) == At(m, j) {
      NewestUnique(t, j, if j == other then Some(row) else None);
    }
  }

  /** The exact keys are the keys on which the store is a map of compare-and-set operations. */
  lemma ExactKeysRefine(k: Key)
    ensures ExactKey(SqlLike, k)
            <==> forall t, m, op: Op, id :: Serves(t, m, id) && op.key == k ==> Refines(t, m, op, id)
  {
    if ExactKey(SqlLike, k) {
      forall t, m, op: Op, id | Serves(t, m, id) && op.key == k ensures Refines(t, m, op, id) {
        ExactKeysOfSql(k);
        ExactReadsItself(SqlLike, t, k);
        ExecRefinesMap(t, m, op, id);
      }
    } else {
      var t, m, other := InexactKeyMisfires(k);
      assert !Refines(t, m, Create(k, [], 0), 2);
    }
  }

  /* On the DDS driver. */

  /** Some order of arrival makes the read return this; for Update one whose first sample does not mislead. */
  ghost predicate ReadUnderDds(t: seq<Row>, op: Op, read: Option<Row>) {
    exists rows ::
      && Arrives(rows, t, KeySelection(DdsFilter, op.key, MaxId(t)))
      && (op.Update? ==> FirstAgrees(rows))
      && read == FoundInSamples(rows, t, op.key, !op.Update?)
  }

  lemma DdsReadIsDue(t: seq<Row>, op: Op, read: Option<Row>)
    requires WellFormed(t) && ReadsItself(DdsFilter, t, op.key) && ReadUnderDds(t, op, read)
    ensures read == Due(t, op)
  {
    var rows :| && Arrives(rows, t, KeySelection(DdsFilter, op.key, MaxId(t)))
                && (op.Update? ==> FirstAgrees(rows))
                && read == FoundInSamples(rows, t, op.key, !op.Update?);
    FoundInSamplesIff(rows, t, op.key);
  }

  /** Update decides as it ought to exactly when the first and the newest sample of the key agree on being deleted. */
  lemma UpdateDecidesRightIff(rows: seq<Row>, t: seq<Row>, op: Op)
    requires WellFormed(t) && op.Update? && ReadsItself(DdsFilter, t, op.key)
    requires Arrives(rows, t, KeySelection(DdsFilter, op.key, MaxId(t)))
    ensures Decide(op, FoundInSamples(rows, t, op.key, false)) == Decide(op, Due(t, op)) <==> FirstAgrees(rows)
  {
    FoundInSamplesIff(rows, t, op.key);
  }

  /** A key that was created and then deleted. */
  lemma CreatedAndDeleted(k: Key) returns (t: seq<Row>)
    requires k != COMPACT_KEY
    ensures WellFormed(t) && Chained(t) && |t| == 2 && MaxId(t) == 2 && t[0].name == t[1].name == k
    ensures !t[0].deleted && t[1].deleted && t[1].id == 2 && Newest(t, k) == Some(t[1])
    ensures forall r :: r in t ==> r.prevRev < 2
  {
    var created := Row(1, k, true, false, 0, 0, 0, [], []);
    var deleted := Row(2, k, false, true, 1, 1, 0, [], []);
    t := [created];
    NewestUnique([], k, None);
    AppendKeepsChains([], created);
    assert [] + [created] == t;
    NewestUnique(t, k, Some(created));
    AppendKeepsChains(t, deleted);
    NewestAfterAppend(t, deleted, k);
    t := t + [deleted];
  }

  lemma FirstOfTwo(t: seq<Row>, k: Key)
    requires |t| == 2 && t[0].name == k
    ensures FirstOf(t, k) == Some(t[0])
  {
    assert t[..1][..0] == [] && t[..1][0] == t[0];
    assert FirstOf(t[..1], k) == Some(t[0]);
  }

  lemma TombstoneIsShown(t: seq<Row>, k: Key)
    requires ExactKey(DdsFilter, k) && WellFormed(t) && |t| == 2 && t[0].name == t[1].name == k && MaxId(t) == t[1].id
    requires !t[0].deleted && Newest(t, k) == Some(t[1])
    ensures Arrives(t, t, KeySelection(DdsFilter, k, MaxId(t)))
    ensures FoundInSamples(t, t, k, false) == Some(t[1])
  {
    forall r | r in t ensures Selects(KeySelection(DdsFilter, k, MaxId(t)), r) {
      ExactMatch(DdsFilter, k, r.name);
      MaxIdBounds(t, r);
    }
    FirstOfTwo(t, k);
    ExactReadsItself(DdsFilter, t, k);
    FoundInSamplesIff(t, t, k);
  }

  /** A key created and then deleted, in that order of arrival, is shown by its tombstone: an update writes over it. */
  lemma TombstoneIsUpdated(k: Key) returns (t: seq<Row>, op: Op)
    requires ExactKey(DdsFilter, k) && k != COMPACT_KEY
    ensures WellFormed(t) && Chained(t) && Lookup(t, k).None? && op.Update? && op.key == k
    ensures Arrives(t, t, KeySelection(DdsFilter, k, MaxId(t)))
    ensures var decision := Decide(op, FoundInSamples(t, t, k, false));
            decision.Attempt? && !Clash(t, decision.row) && !Chained(Inserted(t, decision.row, 3))
  {
    t := CreatedAndDeleted(k);
    op := Update(k, [], 2, 0);
    TombstoneIsShown(t, k);
    AppendKeepsChains(t, Decide(op, Some(t[1])).row.(id := 3));
  }
}
